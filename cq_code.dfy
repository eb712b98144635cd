/** CQ-code escaping (`escape` and `unescape` in nonebot_plugin_ability/text.py).
    Both are written exactly as the source writes them, as chains of
    `str.replace` passes. Beside them stands a per-character reference encoding,
    `Encode`, and the lemmas that tie the chains to it: each escape pass adds one
    character to the set of escaped characters, each unescape pass removes one. */
module CqCode {
  import opened StrReplace

  /** The characters that CQ codes reserve. */
  const Specials: set<char> := {'&', '[', ']', ','}

  /** The HTML-style entity that stands for a reserved character. */
  function Entity(c: char): (e: string)
    requires c in Specials
    ensures |e| == 5 && e[0] == '&' && '&' !in e[1..]
  {
    if c == '&' then "&amp;"
    else if c == '[' then "&#91;"
    else if c == ']' then "&#93;"
    else "&#44;"
  }

  /** The text one input character becomes when the characters in `esc` are escaped. */
  function Token(c: char, esc: set<char>): string
    requires esc <= Specials
  {
    if c in esc then Entity(c) else [c]
  }

  /** Reference encoding: every character of `s` replaced by its token, in order. */
  function Encode(s: string, esc: set<char>): string
    requires esc <= Specials
  {
    if s == [] then [] else Token(s[0], esc) + Encode(s[1..], esc)
  }

  /** How many characters of `s` belong to `esc`. */
  function CountIn(s: string, esc: set<char>): nat
  {
    if s == [] then 0 else (if s[0] in esc then 1 else 0) + CountIn(s[1..], esc)
  }

  /** The characters `escape` rewrites: `,` only when asked to. */
  function Escaped(escapeComma: bool): (esc: set<char>)
    ensures esc <= Specials
  {
    if escapeComma then Specials else {'&', '[', ']'}
  }

  /** The default of `escape`'s keyword argument `escape_comma`. */
  const DefaultEscapeComma := true

  /** The unconditional passes of `escape`: `&` first, then `[`, then `]`.
      Each pass lengthens the text; see EscapeBracketsEncodes for what they produce. */
  function EscapeBrackets(s: string): (r: string)
    ensures |r| >= |s|
  {
    ReplaceAll(ReplaceAll(ReplaceAll(s, "&", "&amp;"), "[", "&#91;"), "]", "&#93;")
  }

  /** `escape(s, escape_comma=...)`: the passes above, then optionally `,`. The
      result is the per-character encoding of the characters `escape` rewrites. */
  function Escape(s: string, escapeComma: bool): (r: string)
    ensures r == Encode(s, Escaped(escapeComma))
  {
    var t := EscapeBrackets(s);
    EscapeBracketsEncodes(s);
    if escapeComma then
      assert ',' !in Entity('&') && ',' !in Entity('[') && ',' !in Entity(']');
      EscapePass(s, {'&', '[', ']'}, ',');
      assert {'&', '[', ']'} + {','} == Specials;
      ReplaceAll(t, ",", "&#44;")
    else
      t
  }

  /** `unescape(s)`: the entities in the reverse order, `&amp;` last. Every pass
      shortens or keeps the text. */
  function Unescape(t: string): (r: string)
    ensures |r| <= |t|
  {
    ReplaceAll(ReplaceAll(ReplaceAll(ReplaceAll(t, "&#44;", ","), "&#91;", "["), "&#93;", "]"), "&amp;", "&")
  }

  /** With nothing escaped, the encoding is the identity. */
  lemma {:induction false} EncodeNothing(s: string)
    ensures Encode(s, {}) == s
    decreases |s|
  {
    if s != [] {
      EncodeNothing(s[1..]);
      assert [s[0]] + s[1..] == s;
    }
  }

  /** One escape pass: replacing a character `c` that is not yet escaped, and that
      does not occur in the entities already produced, escapes it as well. */
  lemma {:induction false} EscapePass(s: string, esc: set<char>, c: char)
    requires esc <= Specials && c in Specials && c !in esc
    requires forall e | e in esc :: c !in Entity(e)
    ensures ReplaceAll(Encode(s, esc), [c], Entity(c)) == Encode(s, esc + {c})
    decreases |s|
  {
    if s != [] {
      var d := s[0];
      ReplaceCharConcat(Token(d, esc), Encode(s[1..], esc), c, Entity(c));
      EscapePass(s[1..], esc, c);
      if d == c {
        assert ReplaceAll([c], [c], Entity(c)) == Entity(c) + ReplaceAll([], [c], Entity(c));
      } else {
        ReplaceAbsent(Token(d, esc), [c], Entity(c));
      }
    }
  }

  /** One unescape pass: as long as `&` is escaped, every `&` in the encoding starts
      an entity, so replacing the entity of `c` by `c` un-escapes exactly `c`. */
  lemma {:induction false} UnescapePass(s: string, esc: set<char>, c: char)
    requires '&' in esc && esc <= Specials && c in Specials
    ensures ReplaceAll(Encode(s, esc), Entity(c), [c]) == Encode(s, esc - {c})
    decreases |s|
  {
    if s != [] {
      var d := s[0];
      var rest := Encode(s[1..], esc);
      UnescapePass(s[1..], esc, c);
      if d in esc && d == c {
        ReplaceMatch(rest, Entity(c), [c]);
      } else if d in esc {
        ReplaceMismatch(Entity(d), rest, Entity(c), [c]);
      } else {
        ReplaceSkip([d], rest, Entity(c), [c]);
      }
    }
  }

  /** The first three passes escape exactly `&`, `[` and `]`. */
  lemma EscapeBracketsEncodes(s: string)
    ensures EscapeBrackets(s) == Encode(s, {'&', '[', ']'})
  {
    var t1 := ReplaceAll(s, "&", "&amp;");
    var t2 := ReplaceAll(t1, "[", "&#91;");
    EncodeNothing(s);
    EscapePass(s, {}, '&');
    assert {} + {'&'} == {'&'};
    assert t1 == Encode(s, {'&'});
    EscapePass(s, {'&'}, '[');
    assert {'&'} + {'['} == {'&', '['};
    assert t2 == Encode(s, {'&', '['});
    assert ']' !in Entity('[');
    EscapePass(s, {'&', '['}, ']');
    assert {'&', '['} + {']'} == {'&', '[', ']'};
  }

  /** Unescaping an encoding in which at least `&`, `[` and `]` are escaped gives
      back the original text. */
  lemma DecodeEncode(s: string, esc: set<char>)
    requires {'&', '[', ']'} <= esc <= Specials
    ensures Unescape(Encode(s, esc)) == s
  {
    UnescapePass(s, esc, ',');
    assert esc - {','} == {'&', '[', ']'};
    UnescapePass(s, {'&', '[', ']'}, '[');
    assert {'&', '[', ']'} - {'['} == {'&', ']'};
    UnescapePass(s, {'&', ']'}, ']');
    assert {'&', ']'} - {']'} == {'&'};
    UnescapePass(s, {'&'}, '&');
    assert {'&'} - {'&'} == {};
    EncodeNothing(s);
  }

  /** Round trip: `unescape(escape(s, escape_comma=b)) == s` for both values of `b`. */
  lemma UnescapeEscape(s: string, escapeComma: bool)
    ensures Unescape(Escape(s, escapeComma)) == s
  {
    DecodeEncode(s, Escaped(escapeComma));
  }

  /** Escaping is one-to-one: two texts with the same escaped form are equal. */
  lemma EscapeInjective(s1: string, s2: string, escapeComma: bool)
    requires Escape(s1, escapeComma) == Escape(s2, escapeComma)
    ensures s1 == s2
  {
    UnescapeEscape(s1, escapeComma);
    UnescapeEscape(s2, escapeComma);
  }

  /** A reserved character other than `&` that is escaped never appears in the encoding. */
  lemma {:induction false} EncodeExcludes(s: string, esc: set<char>, x: char)
    requires esc <= Specials && x in esc && x != '&'
    ensures x !in Encode(s, esc)
    decreases |s|
  {
    if s != [] {
      EncodeExcludes(s[1..], esc, x);
      if s[0] in esc {
        assert x !in Entity(s[0]);
      }
    }
  }

  /** A character that is not escaped and occurs in no entity of `esc` keeps its count. */
  lemma {:induction false} EncodeKeeps(s: string, esc: set<char>, x: char)
    requires esc <= Specials && x !in esc
    requires forall e | e in esc :: x !in Entity(e)
    ensures multiset(Encode(s, esc))[x] == multiset(s)[x]
    decreases |s|
  {
    if s != [] {
      EncodeKeeps(s[1..], esc, x);
      assert s == [s[0]] + s[1..];
      if s[0] in esc {
        assert x !in Entity(s[0]);
      }
    }
  }

  /** Each escaped character grows the text by four characters, the others keep
      their single character. */
  lemma {:induction false} EncodeLength(s: string, esc: set<char>)
    requires esc <= Specials
    ensures |Encode(s, esc)| == |s| + 4 * CountIn(s, esc)
    decreases |s|
  {
    if s != [] {
      EncodeLength(s[1..], esc);
    }
  }

  /** What `escape` guarantees of its output: no `[` or `]`; no `,` when commas are
      escaped; every comma kept when they are not; each reserved character costs
      four more characters, so the output is never shorter than the input. */
  lemma EscapeOutput(s: string, escapeComma: bool)
    ensures '[' !in Escape(s, escapeComma) && ']' !in Escape(s, escapeComma)
    ensures escapeComma ==> ',' !in Escape(s, escapeComma)
    ensures !escapeComma ==> multiset(Escape(s, escapeComma))[','] == multiset(s)[',']
    ensures |Escape(s, escapeComma)| == |s| + 4 * CountIn(s, Escaped(escapeComma))
    ensures |Escape(s, escapeComma)| >= |s|
  {
    var esc := Escaped(escapeComma);
    EncodeExcludes(s, esc, '[');
    EncodeExcludes(s, esc, ']');
    if escapeComma {
      EncodeExcludes(s, esc, ',');
    } else {
      EncodeKeeps(s, esc, ',');
    }
    EncodeLength(s, esc);
  }

  /** `unescape` never makes a text longer, and leaves a text without `&` unchanged. */
  lemma UnescapeOutput(t: string)
    ensures |Unescape(t)| <= |t|
    ensures '&' !in t ==> Unescape(t) == t
  {
    if '&' !in t {
      ReplaceSkip(t, [], "&#44;", ",");
      ReplaceSkip(t, [], "&#91;", "[");
      ReplaceSkip(t, [], "&#93;", "]");
      ReplaceSkip(t, [], "&amp;", "&");
      assert t + [] == t;
    }
  }

  /** Called with its default arguments, `escape(s)` escapes commas as well: the
      output has no `[`, `]` or `,`, and unescaping it gives `s` back. */
  lemma EscapeDefault(s: string)
    ensures var r := Escape(s, DefaultEscapeComma);
      '[' !in r && ']' !in r && ',' !in r && Unescape(r) == s
  {
    EscapeOutput(s, DefaultEscapeComma);
    UnescapeEscape(s, DefaultEscapeComma);
  }
}
