/** `random_string` from nonebot_plugin_ability/text.py, with Python's process-wide
    random generator made an explicit argument and result. The generator is a
    stream of draws of `random()` (reals in [0, 1)), a position in it, and the
    way `random.seed(x)` restarts it; `random.choices` turns each draw `u` into
    `population[floor(u * n)]`. */
module RandomText {

  datatype Option<T> = None | Some(value: T)

  /** The source's exceptions: the two `ValueError`s of `random_string` and the
      `IndexError` that `random.choices` raises on an empty population. */
  datatype Error = InvalidType | InvalidRange | EmptyPopulation

  datatype Result<T> = Ok(value: T) | Err(error: Error)

  /** `num_strings == 1` gives a bare string, any other count a list. */
  datatype Output = Single(text: string) | Many(texts: seq<string>)

  /** The arguments of `random_string`; DefaultRequest gives the source's defaults. */
  datatype Request = Request(
    length: int,
    prefix: Option<string>,
    kind: string,
    charset: Option<string>,
    numStrings: int,
    seed: Option<int>,
    startIndex: Option<int>,
    endIndex: Option<int>)

  /** A value returned by `random()`. */
  type UnitInterval = u: real | 0.0 <= u < 1.0

  type Stream = nat -> UnitInterval

  /** Python's global generator: what `seed(x)` restarts it with, the stream it is
      on, and how many draws of that stream have been taken. */
  datatype Generator = Generator(seeding: int -> Stream, stream: Stream, next: nat)

  /** A computed value together with the generator state after computing it. */
  datatype Drawn<T> = Drawn(value: T, gen: Generator)

  const Digits: string := "0123456789"
  const AsciiLowercase: string := "abcdefghijklmnopqrstuvwxyz"
  const KnownKinds: set<string> := {"numeric", "alpha", "alphanumeric"}

  function Max(a: int, b: int): int { if a < b then b else a }

  predicate IsDigit(c: char) { '0' <= c <= '9' }
  predicate IsLower(c: char) { 'a' <= c <= 'z' }

  /** The characters the default alphabet of a known `type` admits. */
  predicate Admits(kind: string, c: char)
  {
    (kind == "numeric" && IsDigit(c))
    || (kind == "alpha" && IsLower(c))
    || (kind == "alphanumeric" && (IsLower(c) || IsDigit(c)))
  }

  /** `random.seed(x)`: the generator restarts on the stream that `x` selects. */
  function Seed(g: Generator, x: int): (r: Generator)
    ensures r.seeding == g.seeding && r.stream == g.seeding(x) && r.next == 0
  {
    g.(stream := g.seeding(x), next := 0)
  }

  /** `population[floor(u * n)]` for a draw `u`: always an element of the population. */
  function Pick(population: string, u: UnitInterval): (c: char)
    requires |population| > 0
    ensures c in population
  {
    var n := |population|;
    var x := u * (n as real);
    assert 0.0 <= x < n as real by {
      ScaledDrawBounds(u, n as real);
    }
    population[x.Floor]
  }

  /** A draw scaled by a positive length stays below that length. */
  lemma ScaledDrawBounds(u: real, m: real)
    requires 0.0 <= u < 1.0 && m > 0.0
    ensures 0.0 <= u * m < m
  {
    assert m - u * m == (1.0 - u) * m;
  }

  /** `random.choices(population, k=k)`: `k` draws (none when `k <= 0`), the i-th
      character picked by the i-th draw after the current position. */
  function Choices(population: string, k: int, g: Generator): (d: Drawn<string>)
    requires |population| > 0 || k <= 0
    ensures |d.value| == Max(k, 0)
    ensures forall i | 0 <= i < |d.value| :: d.value[i] == Pick(population, g.stream(g.next + i))
    ensures d.gen == g.(next := g.next + Max(k, 0))
    decreases k
  {
    if k <= 0 then Drawn([], g)
    else
      var c := Pick(population, g.stream(g.next));
      var rest := Choices(population, k - 1, g.(next := g.next + 1));
      Drawn([c] + rest.value, rest.gen)
  }

  /** The list comprehension calling `random.choices` `count` times in a row (none
      when `count <= 0`), each call taking its draws where the previous one stopped. */
  function ChoicesMany(population: string, k: int, count: int, g: Generator): (d: Drawn<seq<string>>)
    requires |population| > 0 || k <= 0 || count <= 0
    ensures |d.value| == Max(count, 0)
    ensures d.gen == g.(next := g.next + Max(count, 0) * Max(k, 0))
    decreases count
  {
    if count <= 0 then Drawn([], g)
    else
      var first := Choices(population, k, g);
      var rest := ChoicesMany(population, k, count - 1, first.gen);
      assert (count - 1) * Max(k, 0) + Max(k, 0) == count * Max(k, 0);
      Drawn([first.value] + rest.value, rest.gen)
  }

  /** Generation order: string `j` of the list is the one drawn right after the `j`
      strings before it, starting `j * k` draws after the current position. */
  lemma {:induction false} ChoicesManyOrder(population: string, k: int, count: int, g: Generator, j: nat)
    requires |population| > 0 || k <= 0
    requires j < count
    ensures ChoicesMany(population, k, count, g).value[j]
         == Choices(population, k, g.(next := g.next + j * Max(k, 0))).value
    decreases count
  {
    var first := Choices(population, k, g);
    if j > 0 {
      ChoicesManyOrder(population, k, count - 1, first.gen, j - 1);
      assert first.gen.next + (j - 1) * Max(k, 0) == g.next + j * Max(k, 0);
    }
  }

  /** Charset resolution: a supplied `charset` wins; otherwise `type` chooses digits,
      lowercase letters or both, and any other `type` is a `ValueError`. */
  function ResolveCharset(charset: Option<string>, kind: string): (r: Result<string>)
    ensures r.Err? <==> charset.None? && kind !in KnownKinds
    ensures r.Err? ==> r.error == InvalidType
    ensures charset.Some? ==> r == Ok(charset.value)
  {
    if charset.Some? then Ok(charset.value)
    else if kind == "numeric" then Ok(Digits)
    else if kind == "alpha" then Ok(AsciiLowercase)
    else if kind == "alphanumeric" then Ok(AsciiLowercase + Digits)
    else Err(InvalidType)
  }

  /** The index-range check, run only when both indices are given, and the length
      it leaves to be drawn. */
  function EffectiveLength(length: int, startIndex: Option<int>, endIndex: Option<int>): (r: Result<int>)
    ensures startIndex.Some? && endIndex.Some? ==>
      (r.Ok? <==> 0 <= startIndex.value <= endIndex.value < length)
    ensures startIndex.Some? && endIndex.Some? && r.Ok? ==>
      r.value == endIndex.value - startIndex.value + 1 && 1 <= r.value <= length - startIndex.value
    ensures !(startIndex.Some? && endIndex.Some?) ==> r == Ok(length)
    ensures r.Err? ==> r.error == InvalidRange
  {
    if startIndex.Some? && endIndex.Some? then
      var start, end := startIndex.value, endIndex.value;
      if start < 0 || start >= length || end < 0 || end >= length || start > end then
        Err(InvalidRange)
      else
        Ok(end - start + 1)
    else
      Ok(length)
  }

  /** `prefix + s[len(prefix):]`: the prefix laid over the front of `s`, which
      yields the whole prefix when it is longer than `s`. */
  function Overlay(prefix: string, s: string): (r: string)
    ensures prefix <= r
    ensures |r| == Max(|prefix|, |s|)
    ensures forall i | |prefix| <= i < |r| :: r[i] == s[i]
  {
    prefix + (if |prefix| <= |s| then s[|prefix|..] else "")
  }

  /** The prefix step for one string: nothing happens without a prefix. */
  function WithPrefix(prefix: Option<string>, s: string): (r: string)
    ensures prefix.None? ==> r == s
    ensures prefix.Some? ==> prefix.value <= r && |r| == Max(|prefix.value|, |s|)
  {
    if prefix.Some? then Overlay(prefix.value, s) else s
  }

  /** The prefix step for a list: `[prefix + s[len(prefix):] for s in result]`. */
  function WithPrefixAll(prefix: Option<string>, ss: seq<string>): (r: seq<string>)
    ensures |r| == |ss|
    ensures forall j | 0 <= j < |ss| :: r[j] == WithPrefix(prefix, ss[j])
  {
    if ss == [] then [] else [WithPrefix(prefix, ss[0])] + WithPrefixAll(prefix, ss[1..])
  }

  /** The starting generator of a call: reseeded when a seed is given. */
  function Start(req: Request, g: Generator): (r: Generator)
    ensures r.seeding == g.seeding
    ensures req.seed.None? ==> r == g
    ensures req.seed.Some? ==> r.stream == g.seeding(req.seed.value) && r.next == 0
  {
    if req.seed.Some? then Seed(g, req.seed.value) else g
  }

  /** `random_string(...)`: the result, and the global generator after the call. */
  function RandomString(req: Request, g: Generator): (r: Drawn<Result<Output>>)
    ensures r.gen.seeding == g.seeding
    ensures r.value.Ok? ==> (r.value.value.Single? <==> req.numStrings == 1)
  {
    var g0 := Start(req, g);
    match ResolveCharset(req.charset, req.kind)
    case Err(e) => Drawn(Err(e), g0)
    case Ok(population) =>
      match EffectiveLength(req.length, req.startIndex, req.endIndex)
      case Err(e) => Drawn(Err(e), g0)
      case Ok(k) =>
        if |population| == 0 && k > 0 && req.numStrings >= 1 then
          // the first `random()` is drawn before indexing the empty population fails
          Drawn(Err(EmptyPopulation), g0.(next := g0.next + 1))
        else if req.numStrings == 1 then
          var d := Choices(population, k, g0);
          Drawn(Ok(Single(WithPrefix(req.prefix, d.value))), d.gen)
        else
          var d := ChoicesMany(population, k, req.numStrings, g0);
          Drawn(Ok(Many(WithPrefixAll(req.prefix, d.value))), d.gen)
  }

  /** The strings of an output, a bare string counting as a list of one. */
  function Strings(out: Output): seq<string>
  {
    match out
    case Single(s) => [s]
    case Many(ss) => ss
  }

  /** The default alphabets hold exactly the characters their `type` names. */
  lemma DefaultAlphabets(c: char)
    ensures c in Digits <==> IsDigit(c)
    ensures c in AsciiLowercase <==> IsLower(c)
    ensures c in AsciiLowercase + Digits <==> IsLower(c) || IsDigit(c)
  {
    if IsDigit(c) {
      assert c == Digits[c as int - '0' as int];
    }
    if IsLower(c) {
      assert c == AsciiLowercase[c as int - 'a' as int];
    }
  }

  /** Charset resolution: a supplied charset overrides `type`; without one, a known
      `type` yields exactly the characters it names, and any other `type` is the
      `ValueError` for an invalid type. */
  lemma ResolveCharsetSpec(charset: Option<string>, kind: string)
    ensures ResolveCharset(charset, kind).Err? <==> charset.None? && kind !in KnownKinds
    ensures ResolveCharset(charset, kind).Err? ==> ResolveCharset(charset, kind).error == InvalidType
    ensures charset.Some? ==> ResolveCharset(charset, kind) == Ok(charset.value)
    ensures charset.None? && kind in KnownKinds ==>
      |ResolveCharset(charset, kind).value| > 0
      && forall c :: c in ResolveCharset(charset, kind).value <==> Admits(kind, c)
  {
    forall c ensures c in Digits <==> IsDigit(c) {
      DefaultAlphabets(c);
    }
    forall c ensures c in AsciiLowercase <==> IsLower(c) {
      DefaultAlphabets(c);
    }
    forall c ensures c in AsciiLowercase + Digits <==> IsLower(c) || IsDigit(c) {
      DefaultAlphabets(c);
    }
  }

  /** When each of the three errors is raised: an unknown `type` without a charset;
      a bad index range (checked only when both indices are given); an empty
      supplied charset from which at least one character must be drawn. */
  lemma RandomStringErrors(req: Request, g: Generator)
    ensures RandomString(req, g).value == Err(InvalidType)
        <==> req.charset.None? && req.kind !in KnownKinds
    ensures RandomString(req, g).value == Err(InvalidRange)
        <==> (req.charset.Some? || req.kind in KnownKinds)
             && req.startIndex.Some? && req.endIndex.Some?
             && !(0 <= req.startIndex.value <= req.endIndex.value < req.length)
    ensures RandomString(req, g).value == Err(EmptyPopulation)
        <==> req.charset == Some("") && req.numStrings >= 1
             && EffectiveLength(req.length, req.startIndex, req.endIndex).Ok?
             && EffectiveLength(req.length, req.startIndex, req.endIndex).value > 0
  {
    ResolveCharsetSpec(req.charset, req.kind);
  }

  /** `num_strings == 1` yields a bare string; any other count yields a list of
      exactly that many strings (none for a count below one). */
  lemma RandomStringShape(req: Request, g: Generator)
    requires RandomString(req, g).value.Ok?
    ensures RandomString(req, g).value.value.Single? <==> req.numStrings == 1
    ensures |Strings(RandomString(req, g).value.value)|
         == if req.numStrings == 1 then 1 else Max(req.numStrings, 0)
  {
  }

  /** Every string has the effective length and draws all its characters from the
      resolved charset; with a prefix, it starts with the prefix, is as long as the
      longer of the two, and the characters after the prefix are from the charset. */
  lemma RandomStringContents(req: Request, g: Generator)
    requires RandomString(req, g).value.Ok?
    ensures ResolveCharset(req.charset, req.kind).Ok?
    ensures EffectiveLength(req.length, req.startIndex, req.endIndex).Ok?
    ensures forall s | s in Strings(RandomString(req, g).value.value) ::
      var population := ResolveCharset(req.charset, req.kind).value;
      var k := EffectiveLength(req.length, req.startIndex, req.endIndex).value;
      if req.prefix.None? then
        |s| == Max(k, 0) && forall c | c in s :: c in population
      else
        req.prefix.value <= s && |s| == Max(|req.prefix.value|, Max(k, 0))
        && forall i | |req.prefix.value| <= i < |s| :: s[i] in population
  {
    var population := ResolveCharset(req.charset, req.kind).value;
    var k := EffectiveLength(req.length, req.startIndex, req.endIndex).value;
    var g0 := Start(req, g);
    var ss := Strings(RandomString(req, g).value.value);
    var drawn := if req.numStrings == 1 then [Choices(population, k, g0).value]
                 else ChoicesMany(population, k, req.numStrings, g0).value;
    assert |ss| == |drawn|;
    forall j | 0 <= j < |drawn|
      ensures ss[j] == WithPrefix(req.prefix, drawn[j])
      ensures |drawn[j]| == Max(k, 0) && forall c | c in drawn[j] :: c in population
    {
      if req.numStrings != 1 {
        ChoicesManyOrder(population, k, req.numStrings, g0, j);
      }
    }
  }

  /** The prefix only overlays the front: a call with a prefix draws the same strings,
      from the same generator state, as the call without it, and lays the prefix
      over each of them. */
  lemma RandomStringPrefix(req: Request, g: Generator)
    ensures RandomString(req, g).gen == RandomString(req.(prefix := None), g).gen
    ensures RandomString(req, g).value.Ok? <==> RandomString(req.(prefix := None), g).value.Ok?
    ensures RandomString(req, g).value.Ok? ==>
      var withP := Strings(RandomString(req, g).value.value);
      var without := Strings(RandomString(req.(prefix := None), g).value.value);
      |withP| == |without|
      && forall j | 0 <= j < |withP| :: withP[j] == WithPrefix(req.prefix, without[j])
  {
  }

  /** Generator use: a successful call takes `k` draws per string, continuing the
      stream it started on (the seeded one when a seed is given). */
  lemma RandomStringDraws(req: Request, g: Generator)
    requires RandomString(req, g).value.Ok?
    ensures RandomString(req, g).gen.seeding == g.seeding
    ensures RandomString(req, g).gen.stream == Start(req, g).stream
    ensures RandomString(req, g).gen.next == Start(req, g).next
      + |Strings(RandomString(req, g).value.value)|
        * Max(EffectiveLength(req.length, req.startIndex, req.endIndex).value, 0)
  {
  }

  /** Seed determinism: with a seed, the call does not depend on the generator's
      earlier state, so two calls with the same arguments and seed agree. */
  lemma SeedDeterminism(req: Request, g1: Generator, g2: Generator)
    requires req.seed.Some? && g1.seeding == g2.seeding
    ensures RandomString(req, g1) == RandomString(req, g2)
  {
    assert Start(req, g1) == Start(req, g2);
  }

  /** Two successive calls with the same arguments and seed, the second running on
      the generator the first left behind, return the same result. */
  lemma SuccessiveSeededCalls(req: Request, g: Generator)
    requires req.seed.Some?
    ensures RandomString(req, RandomString(req, g).gen).value == RandomString(req, g).value
  {
    SeedDeterminism(req, g, RandomString(req, g).gen);
  }

  /** Without a supplied charset, every drawn character (everything after the prefix)
      is one that `type` names: a digit, a lowercase letter, or either. */
  lemma RandomStringAlphabet(req: Request, g: Generator)
    requires RandomString(req, g).value.Ok? && req.charset.None?
    ensures forall s | s in Strings(RandomString(req, g).value.value) ::
      forall i | (if req.prefix.Some? then |req.prefix.value| else 0) <= i < |s| :: Admits(req.kind, s[i])
  {
    RandomStringContents(req, g);
    ResolveCharsetSpec(req.charset, req.kind);
  }

  /** `random_string(6, prefix="ABC", start_index=1, end_index=4)` has length 4,
      starts with "ABC" and ends with a lowercase letter. */
  lemma ExamplePrefixRange(g: Generator)
    ensures var o := RandomString(Request(6, Some("ABC"), "alpha", None, 1, None, Some(1), Some(4)), g).value;
      o.Ok? && o.value.Single? && |o.value.text| == 4 && "ABC" <= o.value.text && IsLower(o.value.text[3])
  {
    var req := Request(6, Some("ABC"), "alpha", None, 1, None, Some(1), Some(4));
    ResolveCharsetSpec(None, "alpha");
    assert EffectiveLength(6, Some(1), Some(4)) == Ok(4);
    assert RandomString(req, g).value.Ok?;
    RandomStringContents(req, g);
  }

  /** The reversed range of `random_string(8, start_index=5, end_index=2)` is refused. */
  lemma ExampleBadRange(g: Generator)
    ensures RandomString(Request(8, None, "alpha", None, 1, None, Some(5), Some(2)), g).value == Err(InvalidRange)
  {
    RandomStringErrors(Request(8, None, "alpha", None, 1, None, Some(5), Some(2)), g);
  }

  /** `random_string(length)` with every other argument at its default:
      `type="alpha"`, `num_strings=1`, and no prefix, charset, seed or indices. */
  function DefaultRequest(length: int): (req: Request)
    ensures req.length == length && req.kind == "alpha" && req.numStrings == 1
    ensures req.prefix.None? && req.charset.None? && req.seed.None?
    ensures req.startIndex.None? && req.endIndex.None?
  {
    Request(length, None, "alpha", None, 1, None, None, None)
  }

  /** With the defaults, `random_string(n)` is a single string of `max(n, 0)`
      lowercase letters. */
  lemma DefaultIsLowercase(n: int, g: Generator)
    ensures var o := RandomString(DefaultRequest(n), g).value;
      o.Ok? && o.value.Single? && |o.value.text| == Max(n, 0)
      && forall i | 0 <= i < |o.value.text| :: IsLower(o.value.text[i])
  {
    var req := DefaultRequest(n);
    var d := Choices(AsciiLowercase, n, g);
    assert ResolveCharset(None, "alpha") == Ok(AsciiLowercase);
    assert EffectiveLength(n, None, None) == Ok(n);
    assert RandomString(req, g).value == Ok(Single(d.value));
    forall i | 0 <= i < |d.value| ensures IsLower(d.value[i]) {
      DefaultAlphabets(d.value[i]);
    }
  }
}
