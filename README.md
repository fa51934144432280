# Terminal cell width of codepoints and strings

This project models the two measurement functions of the `wcwidth` library, as vendored in `examples/track_then_get.py`.

- `wcwidth` gives the number of terminal cells one character occupies. The answer is 1 for printable ASCII, -1 for a C0/C1 control character, 0 for a zero-width codepoint of the resolved Unicode version, and 1 or 2 otherwise, depending on the East Asian wide table.
- `wcswidth` measures a string, or its first `n` characters, from left to right:
  - a Zero Width Joiner (U+200D) hides itself and the next character;
  - Variation Selector-16 (U+FE0F), from Unicode 9.0.0 on, may widen the last character measured to occupy a cell;
  - the first control character measured makes the whole result -1.

Layout:

- `tables.dfy` (module `Tables`) holds the data these functions consume. Codepoint ranges and well-formed range tables are defined there. `Lookup` is range membership as a 0-or-1 value, and `Bisearch` is a binary search proved to agree with it. Version triples compare lexicographically. `Env` bundles the tables keyed by version string with the version resolver (`matchVersion`, for `_wcmatch_version`) and the key parser (`versionValue`, for `_wcversion_value`). The resolver and the parser are arbitrary functions. `Valid` states only what the code relies on: every selector resolves to a key that both tables hold, the VS16 table has its "9.0.0" entry, every zero-width and wide table is sorted with disjoint ranges, and so is the "9.0.0" entry of the VS16 table, the only VS16 entry the code reads.
- `width.dfy` (module `Width`) holds the rest:
  - `Wcwidth` is a function, as the source is pure.
  - `SeqWidth` is the reference definition of the string scan, written as a recursion over the rest of the string.
  - `Wcswidth` is the source's `while idx < end` loop, with its index, accumulator, remembered character and lazily resolved version. It is proved equal to `SeqWidth`.
- `properties.dfy` (module `WidthProperties`) holds the lemmas relating these definitions.

The two functions are deterministic because both are modelled as mathematical functions of their inputs. A selector is resolved through `Env.matchVersion`, so the environment variable behind `'auto'` counts as part of that input.

An empty or absent character is measured as codepoint 0 (`examples/track_then_get.py:25`). The docstring of `wcwidth` (lines 16-17) says NUL has no printable effect, that is 0 cells, but the code does not fix that value: 0 takes neither the ASCII fast path nor the control branch (`ucs and ucs < 32` is false for 0), so its width comes from the zero-width and wide tables. The model does the same (`AbsentIsNul`), and never gives -1 for it.

## Model

| member | source | states |
|---|---|---|
| `Width.Wcwidth` | examples/track_then_get.py:3-44 | the width is in {-1, 0, 1, 2}; it is -1 exactly for the C0 controls 1..31, DEL and the C1 controls 0x80..0x9F; printable ASCII is 1 |
| `WidthProperties.AsciiIgnoresTables` | examples/track_then_get.py:30-31 | a codepoint in 32..0x7E is 1 cell for every table set and every selector, so no table is consulted |
| `WidthProperties.AbsentIsNul` | examples/track_then_get.py:25 | an empty or absent character is measured as codepoint 0; its width is never -1 and is 0 exactly when 0 is in the zero-width table |
| `WidthProperties.TableClassification` | examples/track_then_get.py:37-44 | outside the fast paths the width is 0 iff the codepoint is in the resolved zero-width table, 2 iff it is in the wide table and not the zero-width one, 1 iff it is in neither |
| `WidthProperties.ZeroWidthWins` | examples/track_then_get.py:40-41 | a codepoint in both the zero-width and the wide table is 0 cells |
| `Tables.Bisearch` | examples/track_then_get.py:87 | on a sorted, disjoint range table the search answers 0 or 1, and 1 exactly when some range holds the codepoint |
| `Width.SeqWidth` | examples/track_then_get.py:68-102 | the scan's result is at least -1 and at most two cells per element |
| `Width.ControlIffNegative` | examples/track_then_get.py:92-95 | the scan yields -1 exactly when it lands on a control character (every element except those hidden by a joiner), and is at least 0 otherwise |
| `Width.Wcswidth` | examples/track_then_get.py:47-102 | the loop returns the reference scan's width of the whole string, or of its first n characters, where n at most 0 measures nothing; -1 iff a visited element is a control character; 0 for an empty prefix |
| `WidthProperties.SingleCharacter` | examples/track_then_get.py:91-101 | a one-character string other than a joiner has that character's width |
| `WidthProperties.JoinerSkipsPair` | examples/track_then_get.py:74-79 | a joiner and the character after it add nothing and leave the remembered character alone; a joiner in the last position just ends the scan |
| `WidthProperties.JoinedPairCountsFirst` | examples/track_then_get.py:76-79 | [a, ZWJ, b] measures as a alone, whatever b is |
| `WidthProperties.ControlAnywhere` | examples/track_then_get.py:92-95 | a string without joiners that holds a control character at any position measures -1 |
| `WidthProperties.NoControlNonNegative` | examples/track_then_get.py:93-100 | a string without control characters measures between 0 and twice its length |
| `WidthProperties.PlainSum` | examples/track_then_get.py:91-101 | with no joiner, no VS16 and no control character, the string width is the sum of the characters' widths |
| `WidthProperties.Vs16AfterMeasured` | examples/track_then_get.py:80-90 | [b, VS16] with b occupying cells measures b's width plus b's entry in the "9.0.0" VS16 table when the resolved version is at least 9.0.0, and b's width alone below it |
| `WidthProperties.Vs16Twice` | examples/track_then_get.py:86-88 | from 9.0.0 on, a second VS16 in a row does not widen again and is measured as an ordinary character; below 9.0.0 both VS16 add 0 |
| `WidthProperties.Vs16BeforeNineKeepsMemory` | examples/track_then_get.py:86-89 | below 9.0.0 a VS16 after a remembered character adds nothing and keeps that character remembered |
| `WidthProperties.LoneVs16IsMeasured` | examples/track_then_get.py:80 | a VS16 with nothing remembered is measured by the single-character rules |
| `WidthProperties.ZeroWidthIsTransparent` | examples/track_then_get.py:96-99 | a zero-width character other than a joiner or VS16 adds nothing and does not replace the remembered character |
| `WidthProperties.ZeroWidthBeforeVs16` | examples/track_then_get.py:96-99 | [b, z, VS16] with z zero width measures as [b, VS16] |

## Left out

- The `@lru_cache` decorator on `wcwidth` is left out. It is a performance layer with no effect on results.
- `_wcmatch_version` and `_wcversion_value` are not part of this model. They are arbitrary functions inside `Env`, so the "nearest version not above the request, floored at the minimum" selection rule is not modelled or proved.
- The `UNICODE_VERSION` environment lookup behind `'auto'` is left out. Its effect is folded into `Env.matchVersion`.
- The generated tables `ZERO_WIDTH`, `WIDE_EASTASIAN` and `VS16_NARROW_TO_WIDE` are not part of this model. They are inputs, and only their shape is constrained: each zero-width and wide table, and the "9.0.0" VS16 table, is sorted with disjoint, non-empty ranges.
- `_bisearch` is not part of this model; it is defined in the `wcwidth` library, not in `examples/track_then_get.py`. `Tables.Bisearch` is a half-open binary search with the same answer. wcwidth's `_bisearch` early bounds check and its failure on an empty table are not reproduced. `Wcwidth` reads membership through `Lookup`, because a function cannot call a method.
- Version values are triples. Python's comparison of tuples of other lengths is not modelled, because every table key has three components.
- Python strings are sequences of codepoints in 0..0x10FFFF. `wcwidth` takes one optional codepoint. The `TypeError` that `ord` raises on a longer string is not modelled.
- `Wcswidth` requires `n` to be at most the string's length, so it excludes every larger `n`. Python raises an `IndexError` for such an `n` only when the scan reaches index `len(pwcs)`; the precondition also excludes the inputs where the scan ends before that, by a control character (`"\x01"` with `n = 2` gives -1) or by a final joiner that jumps past the end (`"a\u200D"` with `n = 3` gives 1). A negative `n` is modelled: it measures nothing and gives 0.
- The `# copyv:` tracking directives around the vendored code are left out. They belong to the copyv tool, whose fetching and tracking code is not part of this model.
