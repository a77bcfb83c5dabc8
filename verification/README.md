# fixcolor: greying the colours of a style sheet

`themes/DarkWhite/fixcolor.py` rewrites the colours of a GTK style sheet into greys of the same luminance, line by line. This project models its colour logic in Dafny:

- `hex_to_rgb` reads a `#rrggbb` string into three channels.
- `rgb_to_luminance` weighs the channels into one grey level.
- `convert_color` turns one colour string into the grey written in the same notation.
- The loop in `process_css_file` scans each line with a regular expression. It hands every match to `convert_color`, and replaces every occurrence of each converted match by its grey.

Modules, from the bottom up:

| file | module | what it holds |
|---|---|---|
| `options.dfy` | `Options` | `Option` |
| `chars.dfy` | `CharClass` | ASCII digits, hex digits, `str.isspace` |
| `strings.dfy` | `Strings` | `in`, `int(...)` on digits, the `d`/`02x` formats, `str.split`, `str.join`, `str.replace` |
| `tokens.dfy` | `Tokens` | colour tokens, their text, and deterministic matchers for the patterns at lines 31, 35 and 63 |
| `tokentext.dfy` | `TokenText` | which token texts hold `rgb` and `rgba` |
| `fixcolor.dfy` | `FixColor` | `hex_to_rgb`, `rgb_to_luminance`, `convert_color` |
| `scanner.dfy` | `Scanner` | `re.finditer`: the left-to-right scan of a line |
| `rewrite.dfy` | `Rewrite` | the per-line loop at lines 61-67 |

A Python call may return a value, return `None`, or raise. `FixColor.Outcome` keeps the three apart: `None` makes the loop skip a match, while an exception ends the program.

Findings about how the code behaves, modelled as written:

- **The `rgba` branch never runs.** The `elif 'rgba'` branch of `convert_color` (lines 34-37) is dead, because every string that holds `rgba` also holds `rgb`. The three-group pattern then fails on `rgba(`, so an `rgba(...)` token is never converted. The alpha suffix of lines 42-43 is therefore never produced by the loop.
- **`rg(...)` matches are skipped.** The scanner also matches `rg(r,g,b)`, which `convert_color` refuses.
- **Mixed-case hex is not matched.** The scanner accepts six hex digits only if they are all lower case or all upper case. The output is always lower case.
- **Every occurrence is replaced.** `str.replace` replaces every occurrence of a converted match, not only the occurrence that was found.

The docstring of `convert_color` (line 24) says that it converts `rgba` colours as well as hex and `rgb`. The code never converts an `rgba(...)` token; the model follows the code.

## Model

| member | source | states |
|---|---|---|
| FixColor.IntBase16 | themes/DarkWhite/fixcolor.py:13 | `int(p, 16)` of a two-character slice accepts two hex digits, or one hex digit with whitespace that `int()` strips beside it (any `str.isspace()` character except U+001C..U+001F), or with a sign before it. It gives the hex value of two hex digits, and always lies in -15..255. |
| FixColor.HexToRgb | themes/DarkWhite/fixcolor.py:7-14 | `hex_to_rgb` returns `None` exactly when the string does not start with `#` or is not 7 characters long. The only exception it raises is `ValueError`. Its channels lie in -15..255. |
| FixColor.HexToRgbOfToken | themes/DarkWhite/fixcolor.py:13-14 | For `#` and six hex digits in any mix of cases, the channels are the pairs at offsets 1, 3 and 5 read in base 16, each in [0,255]. |
| FixColor.HexToRgbOfFormat | themes/DarkWhite/fixcolor.py:13 | Writing three bytes with `02x` and reading them back with `hex_to_rgb` gives the same bytes. |
| FixColor.Luminance | themes/DarkWhite/fixcolor.py:16-20 | The weighted sum truncated toward zero lies between the smallest and the largest channel, so bytes give a byte. |
| FixColor.LuminanceGrey | themes/DarkWhite/fixcolor.py:20 | Three equal channels give that channel back. |
| FixColor.LuminanceMonotone | themes/DarkWhite/fixcolor.py:20 | Raising any channel never lowers the luminance. |
| FixColor.Format02x | themes/DarkWhite/fixcolor.py:41 | `f"{n:02x}"` of a non-negative `n` is lower-case hex digits that read back as `n`, exactly two of them when `n` is a byte. A negative `n` gets a `-` before the hex digits of `-n`. |
| FixColor.FormatInt | themes/DarkWhite/fixcolor.py:41 | `f"{n}"` of a non-negative `n` is decimal digits without leading zeros that read back as `n`. A negative `n` gets a `-` before the digits of `-n`. |
| FixColor.Group | themes/DarkWhite/fixcolor.py:43 | `match.group(k)` returns a group exactly when `match` is a match object with at least `k` groups. Otherwise it raises and never returns `None`. |
| FixColor.ConvertColor | themes/DarkWhite/fixcolor.py:22-45 | A colour that `convert_color` returns is never empty, so the truth test at line 66 is the test that it returned one. |
| FixColor.RgbaHoldsRgb | themes/DarkWhite/fixcolor.py:30-34 | Every string holding `rgba` holds `rgb`, so the `elif 'rgba'` test is never reached with a true condition. |
| FixColor.RgbaNeverConverts | themes/DarkWhite/fixcolor.py:30-45 | A string holding `rgba` never yields a colour. If it does not start with `#`, the result is `None`, or `IndexError` when the three-group pattern matches its front. |
| FixColor.ConvertBadHexLength | themes/DarkWhite/fixcolor.py:27-28 | A `#` string of the wrong length makes the unpacking of `None` raise `TypeError`. |
| FixColor.ConvertNoColour | themes/DarkWhite/fixcolor.py:30-45 | A string that neither starts with `#` nor holds `rgb` gives `None`. |
| FixColor.ConvertHexToken | themes/DarkWhite/fixcolor.py:27-41 | A scanned hex token becomes `#` followed by the two lower-case hex digits of its luminance three times, with the luminance a byte. |
| FixColor.ConvertRgbToken | themes/DarkWhite/fixcolor.py:30-41 | A scanned `rgb(r,g,b)` token, whatever whitespace follows its commas, becomes `rgb(L,L,L)` in plain decimal. `L` is the luminance of the unchecked decimal channels. |
| FixColor.CallTextFacts | themes/DarkWhite/fixcolor.py:27-34 | The text of a scanned call does not start with `#`. It holds `rgb` exactly when its name is not `rg`, and holds `rgba` exactly when its name is `rgba`. |
| FixColor.ConvertSkippedCall | themes/DarkWhite/fixcolor.py:30-45 | Scanned `rg(...)` tokens and four-group tokens give `None`. |
| FixColor.ConvertToken | themes/DarkWhite/fixcolor.py:22-45 | On any scanned token, `convert_color` with exact luminance never raises. It returns a colour exactly for hex tokens and three-group `rgb(...)` tokens. |
| FixColor.GreyHexFixed | themes/DarkWhite/fixcolor.py:39-41 | A lower-case hex grey `#llllll` converts to itself. |
| FixColor.GreyRgbFixed | themes/DarkWhite/fixcolor.py:39-41 | A functional grey `rgb(l,l,l)`, in plain decimal with no spaces, converts to itself. |
| FixColor.ConvertIdempotent | themes/DarkWhite/fixcolor.py:22-45 | Converting the colour that a token converted to gives that colour again. |
| Tokens.MatchHex | themes/DarkWhite/fixcolor.py:63 | The two hex branches match exactly when the string starts with `#` and six digits that are all lower case or all upper case. |
| Tokens.MatchAt | themes/DarkWhite/fixcolor.py:63 | What the scanner's pattern matches at the front of a string is a well-formed token whose text is a prefix of the string. |
| Tokens.GroupOkMeans | themes/DarkWhite/fixcolor.py:63 | A group is well formed exactly when it is whitespace followed by at least one decimal digit. |
| Tokens.ParseRendered | themes/DarkWhite/fixcolor.py:63 | Well-formed groups, written comma-separated and followed by a non-digit, parse back to exactly those groups. |
| Tokens.MatchRgb3Sound | themes/DarkWhite/fixcolor.py:31 | What `rgb?\((\d+),\s*(\d+),\s*(\d+)\)` matches is a well-formed three-group call standing at the front of the string. |
| Tokens.MatchRgb4Sound | themes/DarkWhite/fixcolor.py:35 | What the four-group pattern matches is a well-formed four-group call standing at the front of the string. |
| Tokens.MatchRendered | themes/DarkWhite/fixcolor.py:63 | Every token the pattern can produce is found again, whole, at the front of its own text, whatever follows it. The three-group pattern finds exactly the three-group calls. |
| Tokens.MatchAtMeans | themes/DarkWhite/fixcolor.py:63 | The pattern matches at the front of a string exactly when the string starts with the text of a well-formed token, and it returns that token. |
| TokenText.TokenContains | themes/DarkWhite/fixcolor.py:30-34 | A token's text holds `rgb` exactly when it is a call not named `rg`. It holds `rgba` exactly when it is a call named `rgba`. |
| Scanner.Scan | themes/DarkWhite/fixcolor.py:63 | Every match `finditer` yields from a position starts at or after it and inside the line. |
| Scanner.LeftmostOrdered | themes/DarkWhite/fixcolor.py:63 | In a leftmost reading, every match is what the pattern finds at its position, and each match ends before the next one starts. |
| Scanner.ScanMeans | themes/DarkWhite/fixcolor.py:63 | The matches `finditer` yields are exactly the leftmost reading of the line, and it is the only one. In that reading the pattern matches nowhere in the gaps, and each match is what the pattern finds at its position. |
| Scanner.ScanLine | themes/DarkWhite/fixcolor.py:63 | The left-to-right scanning loop yields the scan, which is the leftmost reading. |
| Strings.Hex02 | themes/DarkWhite/fixcolor.py:41 | `02x` gives at least two lower-case hex digits that read back as the number, exactly two when it is a byte. |
| Strings.Decimal | themes/DarkWhite/fixcolor.py:41 | The decimal numeral is non-empty ASCII digits that read back as the number, with no leading zero unless it is `0`. |
| Strings.ReplaceAll | themes/DarkWhite/fixcolor.py:67 | `str.replace` with a replacement as long as the target keeps the line's length. Its meaning is stated by Strings.ReplaceAllIsSplitJoin. |
| Strings.ReplaceAllIsSplitJoin | themes/DarkWhite/fixcolor.py:67 | `str.replace` is the line cut at every leftmost non-overlapping occurrence, with the pieces joined by the replacement. |
| Strings.SplitPiecesFree | themes/DarkWhite/fixcolor.py:67 | No piece of the cut still holds the token, so every occurrence is replaced. |
| Strings.JoinSplit | themes/DarkWhite/fixcolor.py:67 | Joining the pieces with the token itself gives the line back. |
| Strings.ReplaceAllSelf | themes/DarkWhite/fixcolor.py:67 | Replacing a token by its own text leaves the line unchanged. |
| Strings.ReplaceAllAbsent | themes/DarkWhite/fixcolor.py:67 | A line that does not hold the token is unchanged. |
| Rewrite.ConvertGrey | themes/DarkWhite/fixcolor.py:65 | On a scanned token, `convert_color` returns the grey computed from the token's channels if the token converts, and `None` otherwise. |
| Rewrite.MatchesFound | themes/DarkWhite/fixcolor.py:63-64 | Every match of a line is a well-formed token whose text stands in the line at the match's position. |
| Rewrite.StepReplacesAll | themes/DarkWhite/fixcolor.py:65-67 | One pass of the loop body cuts the line at every occurrence of a converted token's text and fills the cuts with the grey; no piece of the cut holds the token's text. A skipped token leaves the line alone. |
| Rewrite.ApplyAllIsSubstitute | themes/DarkWhite/fixcolor.py:61-67 | On scanned tokens the loop with exact luminance never raises. It computes successive replace-all steps, token to grey, in scan order. |
| Rewrite.RewriteLineMeans | themes/DarkWhite/fixcolor.py:61-67 | The line written out is the original line after the replace-all steps for the tokens found in the original line, taken in scan order; with exact luminance it never raises. |
| Rewrite.ProcessLine | themes/DarkWhite/fixcolor.py:61-67 | The loop over the matches, with early exit on an exception, computes that line; with exact luminance the early exit is never taken. |
| Rewrite.SubstituteKept | themes/DarkWhite/fixcolor.py:66-67 | Replace-all steps whose tokens are all skipped, or already grey, leave the line unchanged. |
| Rewrite.UnchangedLine | themes/DarkWhite/fixcolor.py:61-68 | A line in which no scanned token converts to a different colour is written out unchanged. |
| Rewrite.NoTokenLine | themes/DarkWhite/fixcolor.py:61-68 | A line in which the pattern matches nowhere has no matches and is written out unchanged. |
| Rewrite.GreyKept | themes/DarkWhite/fixcolor.py:39-41 | Grey tokens in the form `convert_color` writes, a lower-case `#llllll` or `rgb(l,l,l)` in plain decimal with no spaces, for `l < 256`, are left unchanged by the loop. Other spellings of a grey are not covered. |

## Left out

- The backup copy and file handling (lines 52-58), and the writing of each line (line 68): filesystem plumbing. The model stops at the line that would be written.
- The command line (lines 70-74): it only dispatches on `argv` and prints a usage message.
- An exception part-way through a file: the lines already written stay in the output file. The model reports the exception for the line and nothing about the file.
- FixColor.Luminance: computed exactly, as `(299r + 587g + 114b)` truncated toward zero after dividing by 1000, not in IEEE doubles. Python's double sum can fall just below an integer and lose one. For 65 of the 256 greys `v`, `int(0.299*v + 0.587*v + 0.114*v)` is `v - 1`; `v = 1` is one of them. Channels above 2^53 drift by far more, because the doubles cannot hold them. A channel of about 2^1024 (1.8e308) or more, which `\d+` lets through, makes Python raise `OverflowError` when line 20 converts it to a double; the model returns a grey instead.
- FixColor.ConvertToken: "never raises" holds only under exact luminance. Python raises `OverflowError` at line 20 for an `rgb(...)` channel of about 2^1024 or more (or whose weighted double sum overflows), and from Python 3.11 on `int()` at line 33 raises `ValueError` on a group of more than 4300 digits. The model has no such exceptions.
- Rewrite.ApplyAllIsSubstitute: the loop is free of exceptions only under exact luminance; the `OverflowError` and `ValueError` named on the FixColor.ConvertToken line would end it in Python.
- Rewrite.RewriteLineMeans: its `Returns(...)` for every line holds only under exact luminance; a line with a huge `rgb(...)` channel raises in Python, as on the FixColor.ConvertToken line.
- Rewrite.ProcessLine: its early exit is unreachable only under exact luminance; Python takes it on the exceptions named on the FixColor.ConvertToken line.
- FixColor.LuminanceGrey, FixColor.GreyHexFixed, FixColor.GreyRgbFixed, FixColor.ConvertIdempotent, Rewrite.GreyKept: these hold for exact luminance only. Under doubles, some greys drift down by one.
- `\d` in the patterns and digits in `int(...)`: Python accepts every Unicode decimal digit. The model accepts ASCII `0`-`9` only.
- FixColor.IntBase16: models only the two-character forms `int(_, 16)` accepts with hex digits, the whitespace `int()` strips, or a sign. It does not model Unicode digits or the `0x` prefix, which cannot fit with a digit into two characters.
- `str.replace` with an empty pattern: it cannot arise, because no token text is empty.
- The regular-expression engine: each pattern is modelled as a deterministic matcher. None of them needs backtracking to decide a match.
