# nonebot-plugin-ability text helpers, modelled in Dafny

This project models the string logic of `nonebot_plugin_ability/text.py`, a
utility module for chat-bot plugins:

- **CQ-code escaping.** `escape` replaces `&`, `[`, `]` and optionally `,` with
  the entities `&amp;`, `&#91;`, `&#93;` and `&#44;`. `unescape` undoes them in
  reverse order.
- **`random_string`.** It resolves a charset and optionally narrows the length
  to an index range. It draws one string or a list of strings, then lays a
  prefix over the front of each.

Files:

- `str_replace.dfy` (module `StrReplace`): Python's `str.replace(old, new)` for
  a non-empty `old`. It scans from the left and replaces occurrences that do not
  overlap. Text it has produced is never scanned again.
- `cq_code.dfy` (module `CqCode`): `Escape` and `Unescape` as the source writes
  them, as chains of replace passes.
  - A reference encoding, `Encode(s, esc)`, replaces each character of `s` in
    `esc` by its entity and keeps every other character.
  - Each escape pass adds one character to `esc`. Each unescape pass removes
    one.
  - So `escape` is this per-character encoding, and `unescape(escape(s)) == s`
    for both settings of `escape_comma`.
- `random_text.dfy` (module `RandomText`): `random_string` as a pure function.
  - The process-wide generator of Python's `random` module is an explicit
    `Generator`. It holds a stream of `random()` draws (reals in [0, 1)) and
    the position reached in that stream. It also holds the map from a seed to
    the stream that `random.seed(seed)` starts.
  - `random.choices(population, k=k)` takes `k` draws. It picks
    `population[floor(u * n)]` for each draw `u`, as CPython's implementation
    does.
  - The function returns the result together with the generator after the
    call. The source's exceptions become `Err` values: `ValueError` for a bad
    `type` or a bad index range, and `IndexError` for an empty charset.

Three behaviours of the code may surprise a caller. The model follows the code:

- A prefix longer than the generated string is not truncated. The result is the
  whole prefix.
- A length of zero or less is not rejected. No characters are drawn.
- A `num_strings` of 0 or less gives an empty list.

## Model

| member | source | states |
|---|---|---|
| `StrReplace.ReplaceAll` | nonebot_plugin_ability/text.py:35-37 | `str.replace` never shrinks the text when the replacement is at least as long as the pattern. It never grows the text when the replacement is at most as long. |
| `StrReplace.ReplaceAbsent` | nonebot_plugin_ability/text.py:35-37 | A text in which the pattern never occurs comes back unchanged. |
| `StrReplace.ReplaceCharConcat` | nonebot_plugin_ability/text.py:35-37 | Replacing one character acts on each part of a concatenation independently. |
| `CqCode.Entity` | nonebot_plugin_ability/text.py:35-37 | Every entity has five characters, starts with `&` and has no other `&`. |
| `CqCode.EscapePass` | nonebot_plugin_ability/text.py:35-37 | Replacing a character `c` that is not yet escaped, and is absent from the entities already produced, turns `Encode(s, esc)` into `Encode(s, esc + {c})`. |
| `CqCode.EscapeBracketsEncodes` | nonebot_plugin_ability/text.py:35 | The three unconditional passes (`&` first) escape exactly `&`, `[` and `]`, character by character. |
| `CqCode.EscapeBrackets` | nonebot_plugin_ability/text.py:35 | The three unconditional passes never shorten the text. What they produce exactly is stated by `CqCode.EscapeBracketsEncodes`. |
| `CqCode.Escape` | nonebot_plugin_ability/text.py:29-38 | `escape(s, escape_comma=b)` equals the per-character encoding of `&`, `[`, `]`, and `,` when `b` holds. Each of those characters becomes its entity. Every other character passes through unchanged and in order. The round trip is `CqCode.UnescapeEscape`. |
| `CqCode.EscapeDefault` | nonebot_plugin_ability/text.py:29 | With the default `escape_comma=True`, the output has no `[`, `]` or `,`, and `unescape` gives the input back. |
| `CqCode.UnescapePass` | nonebot_plugin_ability/text.py:47-52 | While `&` is escaped, replacing the entity of `c` by `c` un-escapes exactly `c`: `Encode(s, esc)` becomes `Encode(s, esc - {c})`. |
| `CqCode.DecodeEncode` | nonebot_plugin_ability/text.py:41-52 | `unescape` recovers `s` from any encoding that escapes at least `&`, `[` and `]`, because `&amp;` is undone last. |
| `CqCode.UnescapeEscape` | nonebot_plugin_ability/text.py:29-52 | Round trip: `unescape(escape(s, escape_comma=b)) == s` for both values of `b`. |
| `CqCode.EscapeInjective` | nonebot_plugin_ability/text.py:29-38 | Two texts with the same escaped form are equal. |
| `CqCode.EncodeExcludes` | nonebot_plugin_ability/text.py:35-37 | An escaped reserved character other than `&` never occurs in the encoding. |
| `CqCode.EncodeKeeps` | nonebot_plugin_ability/text.py:35-37 | A character that is not escaped and appears in no entity keeps its number of occurrences. |
| `CqCode.EncodeLength` | nonebot_plugin_ability/text.py:35-37 | The encoding is four characters longer for each escaped character. |
| `CqCode.EscapeOutput` | nonebot_plugin_ability/text.py:35-37 | The output has no `[` or `]`. It has no `,` when commas are escaped, and keeps every comma when they are not. Its length is the input's plus four per reserved character, so it is never shorter. |
| `CqCode.Unescape` | nonebot_plugin_ability/text.py:41-52 | `unescape` never lengthens a text. That it inverts `escape` is `CqCode.UnescapeEscape` and `CqCode.DecodeEncode`. |
| `CqCode.UnescapeOutput` | nonebot_plugin_ability/text.py:41-52 | `unescape` never lengthens a text, and leaves a text without `&` unchanged. |
| `RandomText.Seed` | nonebot_plugin_ability/text.py:77-78 | `random.seed(x)` restarts the generator at the beginning of the stream that `x` selects. It keeps the map from seeds to streams. |
| `RandomText.Pick` | nonebot_plugin_ability/text.py:104 | One draw of `random.choices` always picks an element of the population. |
| `RandomText.Choices` | nonebot_plugin_ability/text.py:104 | `random.choices(charset, k=k)` yields `max(k, 0)` characters, the i-th picked by the i-th draw. The generator advances by exactly that many draws. |
| `RandomText.ChoicesMany` | nonebot_plugin_ability/text.py:106-108 | The comprehension yields `max(num_strings, 0)` strings and uses `max(num_strings, 0) * max(k, 0)` draws. |
| `RandomText.ChoicesManyOrder` | nonebot_plugin_ability/text.py:106-108 | Generation order: string `j` of the list is the one drawn starting `j * k` draws after the call began. |
| `RandomText.ResolveCharset` | nonebot_plugin_ability/text.py:80-90 | A supplied charset is used as given. Without one, resolution fails with the invalid-type error iff `type` is unknown. |
| `RandomText.EffectiveLength` | nonebot_plugin_ability/text.py:92-101 | With both indices given, the range is accepted iff `0 <= start <= end < length`, and the effective length is `end - start + 1`, between 1 and `length - start`. A refusal is the invalid-range error. With one index or none, the length is unchanged. |
| `RandomText.Overlay` | nonebot_plugin_ability/text.py:112 | `prefix + s[len(prefix):]` starts with the prefix. Its length is `max(len(prefix), len(s))`. Every character after the prefix is the drawn string's character at the same index. |
| `RandomText.WithPrefix` | nonebot_plugin_ability/text.py:110-112 | Without a prefix the string is unchanged. With one, the result starts with the prefix and has length `max(len(prefix), len(s))`. |
| `RandomText.WithPrefixAll` | nonebot_plugin_ability/text.py:114 | The list form applies the prefix to every string and keeps the list's length and order. |
| `RandomText.Start` | nonebot_plugin_ability/text.py:77-78 | Without a seed the generator is left as it is. With one, it restarts on the seeded stream. The map from seeds to streams never changes. |
| `RandomText.RandomString` | nonebot_plugin_ability/text.py:55-116 | Every call, failed or not, keeps the map from seeds to streams. A successful call returns a bare string iff `num_strings == 1`. Its errors, contents and draws are stated by the `RandomString…` lemmas below. |
| `RandomText.DefaultRequest` | nonebot_plugin_ability/text.py:56-63 | The defaults of `random_string`: `type="alpha"`, `num_strings=1`, and no prefix, charset, seed or indices. |
| `RandomText.DefaultIsLowercase` | tests/test_text.py:28-30 | `random_string(n)` with the defaults succeeds with a bare string of `max(n, 0)` lowercase letters. |
| `RandomText.DefaultAlphabets` | nonebot_plugin_ability/text.py:80-86 | The digits alphabet holds exactly `0`-`9`, the lowercase one exactly `a`-`z`, and their concatenation exactly both. |
| `RandomText.ResolveCharsetSpec` | nonebot_plugin_ability/text.py:80-90 | A supplied charset overrides `type`. Without one, a known `type` yields a non-empty alphabet of exactly the characters it names. Resolution fails, with the invalid-type error, iff no charset is given and `type` is unknown. |
| `RandomText.RandomStringErrors` | nonebot_plugin_ability/text.py:80-108 | Each error iff its cause. Invalid type: no charset and an unknown `type`. Invalid range: a resolvable charset and a bad range with both indices given. Empty population: an empty supplied charset with at least one string of positive length to draw. |
| `RandomText.RandomStringShape` | nonebot_plugin_ability/text.py:103-108 | `num_strings == 1` gives a bare string. Any other value gives a list of `max(num_strings, 0)` strings. |
| `RandomText.RandomStringContents` | nonebot_plugin_ability/text.py:103-114 | Without a prefix, every string has the effective length and only charset characters. With a prefix, every string starts with it and has length `max(len(prefix), effective length)`. Its characters after the prefix come from the charset. |
| `RandomText.RandomStringAlphabet` | nonebot_plugin_ability/text.py:80-108 | Without a supplied charset, every drawn character is one that `type` names. |
| `RandomText.RandomStringPrefix` | nonebot_plugin_ability/text.py:110-114 | A call with a prefix succeeds iff the same call without it does. It leaves the generator in the same state, and each string is the unprefixed string with the prefix laid over its front. |
| `RandomText.RandomStringDraws` | nonebot_plugin_ability/text.py:77-108 | A successful call keeps the map from seeds to streams and continues the stream it started on, the seeded one when a seed is given. It advances by the effective length for each string. |
| `RandomText.SeedDeterminism` | nonebot_plugin_ability/text.py:77-78 | With a seed, the result and the generator afterwards do not depend on the generator's earlier state, so two calls with the same arguments and seed agree. |
| `RandomText.SuccessiveSeededCalls` | tests/test_text.py:50-52 | Two successive calls with the same arguments and seed, the second on the generator the first left behind, return the same result. |
| `RandomText.ExamplePrefixRange` | tests/test_text.py:58-61 | `random_string(6, prefix="ABC", start_index=1, end_index=4)` is a string of length 4 that starts with "ABC" and ends with a lowercase letter. |
| `RandomText.ExampleBadRange` | nonebot_plugin_ability/text.py:92-100 | `random_string(8, start_index=5, end_index=2)` raises the invalid-range error. |

## Left out

- `md5` and `indent`: thin wrappers around `hashlib` and `inspect.cleandoc`, library code outside this model.
- `nonebot_plugin_ability/requests/`, `utils.py` and `message.py`: they do network I/O, filesystem access, call-stack inspection, thread offloading, and calls into the message library. `__init__.py` only re-exports.
- The Mersenne Twister itself and how `random.seed` turns a seed into a stream. Both are the `seeding` and `stream` parts of `Generator`, supplied by the caller.
- Draws are exact reals in [0, 1), not 53-bit doubles. Rounding of `random() * n` in floating point is not modelled.
- The generator is process-global in the source, so concurrent callers can interleave their draws. The model threads it explicitly through one call.
- `type` is annotated as a literal of three strings, but the code accepts any string. The model takes any string, as the code does.
- `str.replace` with an empty pattern is not modelled. `escape` and `unescape` never use one.
