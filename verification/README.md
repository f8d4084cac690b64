# ZPL barcode field interpretation: a Dafny model

This project models how the ZPL viewer of BinaryKits.Zpl turns a barcode
field into what the barcode encoder and the canvas receive. It covers the
Code 128 drawer (`^BC`) and the Code 39 drawer (`^B3`). For each field the
model gives the symbology, the content to encode (which may hold FNC1,
character 200), the human-readable interpretation line, and the label
height, label offset and image heights.

Code 128 works in three steps:

1. **Stray-token filter.** Every start token `>9`, `>:` or `>;` that begins
   at index 1 or later is deleted, in one left-to-right pass.
2. **Mode dispatch.** The mode is N or none, A, D or U.
   - Mode N reads a leading start code and turns `>8` into FNC1.
   - Mode A keeps the content as it is and lets the encoder choose the subset.
   - Mode D ensures a leading FNC1.
   - Mode U builds a 19-character field followed by a weighted mod-10 check
     digit. On digits, that digit equals the GS1 mod-10 check digit
     (section 7.9 of the GS1 General Specifications).
3. **Layout.** The label height is carved out of the field height.

Code 39 always uses Code 39 Extended. It trims the outer `*` from the
content, wraps the rest in one `*` on each side for the interpretation line,
and adds the label height to the field height.

Files:

- `barcode_types.dfy` (module `BarcodeTypes`): the symbology, the label
  layout shared by both drawers, and the `Render` record of what a draw
  passes on.
- `code128.dfy` (module `Code128`): the Code 128 drawer.
- `code39.dfy` (module `Code39`): the Code 39 drawer.

Everything is pure functions except the mode-U checksum. That is a `for`
loop in the source, so it is a method (`Checksum`) proved against the
recursive function `WeightedSum`. `EncodeModeU` runs the mode-U steps in the
source's order and is proved equal to `ModeU`.

The code does not guarantee the following, and the model shows each case:

- The filter is not idempotent: `A>>99` becomes `A>9`, and a second pass
  gives `A`.
- The interpretation line can still show a start token. Only mode N strips
  a leading start code. Modes A, D and U and unknown modes keep a leading
  `>9`, `>:` or `>;` in the line. In mode N the filter can join a new token
  right after the first character, as in `A>>99`.
- Removing `>8` from the interpretation can leave a new `>8`.
- Mode U's content is 21 characters unless C#'s remainder of the checksum
  is negative, which needs characters below `'0'` in the field. Then the
  check text is a minus sign and a digit, and the content has 22
  characters: `/` gives the line `/-7`.
- A mode outside null, `""`, N, A, D and U gets subset B with the filtered
  content unchanged. No start code is read and `>8` is not replaced.

## Model

| member | source | states |
|---|---|---|
| `BarcodeTypes.Layout` | src/BinaryKits.Zpl.Viewer/ElementDrawers/Barcode128ElementDrawer.cs:106-107 | no interpretation line means label height 0 and offset 0; a printed line has the measured height; the offset is the label height exactly when the line goes above the code, else 0 |
| `Code128.RemoveTokens` | src/BinaryKits.Zpl.Viewer/ElementDrawers/Barcode128ElementDrawer.cs:27 | the left-to-right deletion never lengthens the text |
| `Code128.Normalize` | src/BinaryKits.Zpl.Viewer/ElementDrawers/Barcode128ElementDrawer.cs:51 | the first character always survives; the filter only deletes (sub-multiset), and always an even number of characters |
| `Code128.NormalizeDeletesExactlyStrayTokens` | src/BinaryKits.Zpl.Viewer/ElementDrawers/Barcode128ElementDrawer.cs:27 | the filtered content is exactly the characters that do not belong to a `>9`/`>:`/`>;` starting at index 1 or later, in their original order |
| `Code128.NormalizeFixedPoints` | src/BinaryKits.Zpl.Viewer/ElementDrawers/Barcode128ElementDrawer.cs:51 | the filter leaves the content unchanged if and only if it holds no start token at index 1 or later |
| `Code128.NormalizeNotIdempotent` | src/BinaryKits.Zpl.Viewer/ElementDrawers/Barcode128ElementDrawer.cs:51 | one pass: `A>>99` filters to `A>9`, which a second pass would turn into `A` |
| `Code128.StartCodeSymbology` | src/BinaryKits.Zpl.Viewer/ElementDrawers/Barcode128ElementDrawer.cs:19-24 | a start token maps to one of the fixed subsets: `>9` to A, `>:` to B, `>;` to C, in both directions |
| `Code128.StartCodeMatch` | src/BinaryKits.Zpl.Viewer/ElementDrawers/Barcode128ElementDrawer.cs:26 | a match needs a start token then at least one character; the captured rest is what follows the token, minus one final line break, and has no line break; without line breaks it matches exactly when the content starts with a token and has 3 or more characters; the rest keeps only characters of the content |
| `Code128.ReplaceGs1` | src/BinaryKits.Zpl.Viewer/ElementDrawers/Barcode128ElementDrawer.cs:63-64 | replacing `>8` by one character keeps the length, and replacing it by nothing never lengthens the text; where each replacement lands is stated by `ReplaceGs1InPlace` |
| `Code128.ReplaceGs1Counts` | src/BinaryKits.Zpl.Viewer/ElementDrawers/Barcode128ElementDrawer.cs:63-64 | each `>8` becomes exactly one FNC1 in its place in the content and vanishes from the interpretation, every other character kept in order (`Gs1Pieces`); lengths drop by 1 and 2 per occurrence; the interpretation gains no FNC1 |
| `Code128.ReplaceGs1InPlace` | src/BinaryKits.Zpl.Viewer/ElementDrawers/Barcode128ElementDrawer.cs:63-64 | for any replacement, the result is the per-position reference `Gs1Pieces`: the replacement where a `>8` starts, nothing for its `8`, every other character itself, in order |
| `Code128.ReplaceGs1Example` | src/BinaryKits.Zpl.Viewer/ElementDrawers/Barcode128ElementDrawer.cs:74-75 | `A>8B` encodes `A`, FNC1, `B` and prints `AB` |
| `Code128.ReplaceGs1Identity` | src/BinaryKits.Zpl.Viewer/ElementDrawers/Barcode128ElementDrawer.cs:63-64 | content without `>8` passes either replacement unchanged |
| `Code128.EncodedHasNoGs1Escape` | src/BinaryKits.Zpl.Viewer/ElementDrawers/Barcode128ElementDrawer.cs:63 | after `>8` becomes FNC1, no `>8` is left in the content |
| `Code128.InterpretationIsContentWithoutFnc1` | src/BinaryKits.Zpl.Viewer/ElementDrawers/Barcode128ElementDrawer.cs:63-64 | for content without FNC1, the interpretation equals the encoded content with every FNC1 deleted |
| `Code128.InterpretationMayKeepGs1Escape` | src/BinaryKits.Zpl.Viewer/ElementDrawers/Barcode128ElementDrawer.cs:64 | `>>88` gives the interpretation `>8`, while the content is `>`, FNC1, `8` |
| `Code128.ModeN` | src/BinaryKits.Zpl.Viewer/ElementDrawers/Barcode128ElementDrawer.cs:53-66 | without a start-code match: subset B and the whole content is substituted; with any match (including a rest followed by one final line break): the mapped subset, and the captured rest substituted for content and interpretation; with a leading token and data (no line breaks): the mapped subset, token stripped from content and interpretation; never the dynamic subset; no `>8` in the content; no FNC1 added to the interpretation; interpretation = content minus FNC1 |
| `Code128.BareStartTokenKept` | src/BinaryKits.Zpl.Viewer/ElementDrawers/Barcode128ElementDrawer.cs:26 | a bare `>9` is not consumed: subset B, content and interpretation `>9` |
| `Code128.StartTokenSelectsSubset` | src/BinaryKits.Zpl.Viewer/ElementDrawers/Barcode128ElementDrawer.cs:19-26 | `>9ABC` selects subset A with content and interpretation `ABC` |
| `Code128.ModeNGs1Example` | src/BinaryKits.Zpl.Viewer/ElementDrawers/Barcode128ElementDrawer.cs:63-64 | `>8012345678901` in mode N encodes FNC1 then `012345678901` and prints `012345678901` |
| `Code128.ModeD` | src/BinaryKits.Zpl.Viewer/ElementDrawers/Barcode128ElementDrawer.cs:71-80 | subset C; content always starts with FNC1; it is the substituted content or FNC1 in front of it; a second leading FNC1 only if it was already in the substituted content; interpretation has `>8` deleted; no `>8` left in the content |
| `Code128.ModeDExample` | src/BinaryKits.Zpl.Viewer/ElementDrawers/Barcode128ElementDrawer.cs:71-80 | `123` in mode D encodes FNC1 then `123` and prints `123` |
| `Code128.PadLeft` | src/BinaryKits.Zpl.Viewer/ElementDrawers/Barcode128ElementDrawer.cs:84 | PadLeft: the result is at least the width long, ends with the input, and is the pad character before it |
| `Code128.Pad19` | src/BinaryKits.Zpl.Viewer/ElementDrawers/Barcode128ElementDrawer.cs:84 | exactly 19 characters: the first 19 of a long content, or a short content preceded by `'0'`s |
| `Code128.Gs1CheckDigit` | src/BinaryKits.Zpl.Viewer/ElementDrawers/Barcode128ElementDrawer.cs:85-90 | GS1 reference check digit: in 0..9, and it brings the right-anchored 3/1 weighted sum to a multiple of ten |
| `Code128.WeightsComplementGs1` | src/BinaryKits.Zpl.Viewer/ElementDrawers/Barcode128ElementDrawer.cs:85-89 | on an odd number of characters, the 7/9 sum of the loop plus the GS1 3/1 sum is ten times the digit sum |
| `Code128.WeightedSum` | src/BinaryKits.Zpl.Viewer/ElementDrawers/Barcode128ElementDrawer.cs:85-89 | on digits the loop's sum is never negative, so C#'s remainder is the mathematical one |
| `Code128.CsRem10` | src/BinaryKits.Zpl.Viewer/ElementDrawers/Barcode128ElementDrawer.cs:90 | C# `% 10`: magnitude below 10, sign of the dividend, congruent to the dividend mod 10 |
| `Code128.CheckDigitIsGs1` | src/BinaryKits.Zpl.Viewer/ElementDrawers/Barcode128ElementDrawer.cs:85-90 | on 19 digits, the reduced 7/9 checksum equals the GS1 mod-10 check digit |
| `Code128.Checksum` | src/BinaryKits.Zpl.Viewer/ElementDrawers/Barcode128ElementDrawer.cs:85-89 | the loop computes the 7/9 weighted sum over the 19 characters; on digits it is non-negative and its remainder is the GS1 check digit |
| `Code128.CheckText` | src/BinaryKits.Zpl.Viewer/ElementDrawers/Barcode128ElementDrawer.cs:90-91 | formatting the remainder: one digit for 0..9, `-` and a digit for a negative one; never FNC1 |
| `Code128.ModeU` | src/BinaryKits.Zpl.Viewer/ElementDrawers/Barcode128ElementDrawer.cs:81-92 | subset C; the content is FNC1, then the padded 19-character field, then the text of C#'s remainder of the 7/9 weighted sum of that field; the interpretation is the unpadded content followed by the same check text, for every field, digits or not; on a digit field the content is 21 characters ending in the GS1 check digit; no FNC1 added to the interpretation |
| `Code128.EncodeModeU` | src/BinaryKits.Zpl.Viewer/ElementDrawers/Barcode128ElementDrawer.cs:83-91 | pad and cut, the checksum loop and formatting, step by step, give exactly `ModeU` |
| `Code128.ModeUContentLength` | src/BinaryKits.Zpl.Viewer/ElementDrawers/Barcode128ElementDrawer.cs:83-91 | the content has 21 characters, or 22 when the remainder is negative; always 21 on a digit field |
| `Code128.ModeUNegativeCheck` | src/BinaryKits.Zpl.Viewer/ElementDrawers/Barcode128ElementDrawer.cs:83-91 | `/` gives a negative remainder: the line is `/-7` and the content has 22 characters |
| `Code128.ModeUExample` | src/BinaryKits.Zpl.Viewer/ElementDrawers/Barcode128ElementDrawer.cs:83-91 | `0000000000000000001` gives check 7: content FNC1 + field + `7`, interpretation `00000000000000000017` |
| `Code128.Interpret` | src/BinaryKits.Zpl.Viewer/ElementDrawers/Barcode128ElementDrawer.cs:49-92 | the dispatch table, on the filtered content: none or N is mode N, D is mode D, U is mode U; A gives the dynamic subset on the filtered content unchanged; an unknown mode gives subset B on the filtered content unchanged; D and U give subset C with a leading FNC1; N or none gives subset A, B or C; no `>8` survives in the content for N, none and D |
| `Code128.InterpretationHasNoFnc1` | src/BinaryKits.Zpl.Viewer/ElementDrawers/Barcode128ElementDrawer.cs:49-92 | in every mode, a field without FNC1 gets an interpretation line without FNC1 |
| `Code128.InterpretationIsEncodedText` | src/BinaryKits.Zpl.Viewer/ElementDrawers/Barcode128ElementDrawer.cs:53-80 | in modes N, none and D, the interpretation is the encoded content with its FNC1 deleted, for a field without FNC1 |
| `Code128.ModeNMayShowStartToken` | src/BinaryKits.Zpl.Viewer/ElementDrawers/Barcode128ElementDrawer.cs:51-64 | `A>>99` in mode N prints `A>9`: a start token can reach the interpretation |
| `Code128.ModeAKeepsStartToken` | src/BinaryKits.Zpl.Viewer/ElementDrawers/Barcode128ElementDrawer.cs:67-70 | mode A strips no start code: `>9AB` stays `>9AB` in content and interpretation |
| `Code128.Draw` | src/BinaryKits.Zpl.Viewer/ElementDrawers/Barcode128ElementDrawer.cs:106-120 | encoder height + label height = field height; DrawBarcode gets the field height; label height is 0 without the line and the measured height with it; the offset is the label height only above the code; symbology, content and label are exactly those the dispatch gives for the field's content and mode, never Code 39; no FNC1 in the label of a field without one |
| `Code39.TrimStart` | src/BinaryKits.Zpl.Viewer/ElementDrawers/Barcode39ElementDrawer.cs:33 | the result is a suffix of the input, what was cut off is all `*`, and the result does not start with `*` |
| `Code39.TrimEnd` | src/BinaryKits.Zpl.Viewer/ElementDrawers/Barcode39ElementDrawer.cs:33 | the result is a prefix of the input, what was cut off is all `*`, and the result does not end with `*` |
| `Code39.Trim` | src/BinaryKits.Zpl.Viewer/ElementDrawers/Barcode39ElementDrawer.cs:33 | the result neither starts nor ends with `*` and is no longer than the input |
| `Code39.TrimSplit` | src/BinaryKits.Zpl.Viewer/ElementDrawers/Barcode39ElementDrawer.cs:33 | every content is a run of `*`, then its trimmed text, then a run of `*`; the trimmed text is a contiguous slice, so interior `*` are kept |
| `Code39.TrimUnique` | src/BinaryKits.Zpl.Viewer/ElementDrawers/Barcode39ElementDrawer.cs:33 | conversely, any such split determines the trim: a `*` run, then text not starting or ending with `*`, then a `*` run, trims to that text |
| `Code39.Wrap` | src/BinaryKits.Zpl.Viewer/ElementDrawers/Barcode39ElementDrawer.cs:33 | the interpretation line has at least 2 characters, starts and ends with `*`, and between them is the trimmed content, which neither starts nor ends with `*` |
| `Code39.WrapIdempotent` | src/BinaryKits.Zpl.Viewer/ElementDrawers/Barcode39ElementDrawer.cs:33 | wrapping an interpretation line again returns it unchanged |
| `Code39.WrapIgnoresOuterStars` | src/BinaryKits.Zpl.Viewer/ElementDrawers/Barcode39ElementDrawer.cs:33 | adding any number of `*` on either side of the content does not change the interpretation line |
| `Code39.WrapOfStarsOnly` | src/BinaryKits.Zpl.Viewer/ElementDrawers/Barcode39ElementDrawer.cs:33 | the line is `**` if and only if the content is empty or all `*` |
| `Code39.WrapKeepsInteriorStars` | src/BinaryKits.Zpl.Viewer/ElementDrawers/Barcode39ElementDrawer.cs:33 | a content that neither starts nor ends with `*` (interior `*` allowed, e.g. `A*B`) is printed as `*` + content + `*`, and so is the same content already wrapped (`*ABC123*` stays `*ABC123*`) |
| `Code39.Draw` | src/BinaryKits.Zpl.Viewer/ElementDrawers/Barcode39ElementDrawer.cs:32-59 | always Code 39 Extended on the untrimmed content; the label is the wrapped content; encoder height − label height = field height, the opposite sign to Code 128; DrawBarcode gets the field height; label height and offset as for Code 128 |

## Left out

- Font work is left out: `FontLoader`, `SKFont`, `GetFontMetrics` and the
  float font size `min(ModuleWidth * 7.2, 72)`. The font height the drawer
  measures is an `int` parameter (`fontHeight`) of `Layout` and both `Draw`
  functions.
- The float-to-int cast of the metrics is left out with it. It truncates
  toward zero, although the source comment says "rounded up". Code 128
  measures `Descent - Ascent`; Code 39 measures `Ascent + Descent`, which
  need not be positive. `fontHeight` stands for the value after the cast,
  with no constraint on its sign.
- `Barcode.Encode`, `ConvertSKImageToByteArray`, `DrawBarcode` and the
  disposal of the image are foreign code and I/O. `Render` records the
  arguments they receive instead.
- The position (x, y), `FieldOrigin` and `FieldOrientation` only pass
  through to `DrawBarcode`, so `Render` does not carry them.
- `CanDraw` and the one-argument `Draw` overload are type tests and a
  default-options call.
- A null `Content` is not modelled: a Dafny `string` cannot be null, so the
  content is assumed non-null. On null content the Code 128 drawer throws
  `ArgumentNullException` from the regex replace
  (Barcode128ElementDrawer.cs:51) and the Code 39 drawer throws
  `NullReferenceException` from `Trim('*')` (Barcode39ElementDrawer.cs:33).
- A null `Mode` is written `""`, because `string.IsNullOrEmpty` treats the
  two alike.
- `StartsWith(FNC1)` in mode D is culture-sensitive in .NET. It is modelled
  as an ordinal test of the first character.
- Formatting a negative remainder assumes the invariant culture's `-` sign.
- A Dafny `char` is a Unicode scalar value, while a C# `char` is a UTF-16
  code unit. The model treats content as a sequence of characters and does
  not model surrogate pairs.
- `Draw` (both drawers): the encoder height is an unbounded sum, while C#
  computes `barcode.Height - labelHeight` (Barcode128ElementDrawer.cs:113)
  and `barcode.Height + labelHeight` (Barcode39ElementDrawer.cs:51) in a
  32-bit `int`, which wraps at the extremes. Field heights and font heights
  stay far from those bounds.
- The checksum cannot overflow a 32-bit `int`: at most 19 characters × 9 ×
  0x10FFFF. So the model's unbounded `int` gives the same result.
- The `.NET` regular expressions are written out as functions:
  - `startCodeRegex` is modelled with the line-break behaviour of `.` and
    `$` (`StartCodeMatch`).
  - `invalidInvocationRegex` is modelled as a left-to-right deletion
    (`Normalize`).
