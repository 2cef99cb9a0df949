# ALPR plate-text pipeline in Dafny

This project models the text side of an automatic licence-plate reader. OCR
returns fragments of text for each plate crop. The pipeline then does five
things, in order:

1. It joins the fragment texts with single spaces.
2. It upper-cases the text and turns `:` into `.`.
3. It deletes time-stamp and date artifacts (`remove_pattern_strings`).
4. It normalises the text and searches it for the plate structure: one or two
   capitals, two to five digits, one to three capitals (`extract_plate`).
5. It corrects the region code against a reference table by a similarity score
   above 40 (`typo_correction`).

It then renders the plate and region labels, with `"N/A"` for what is
missing. For each vehicle only the first plate box is used: it is shifted into
image coordinates, and a box narrower than 90 pixels is left unread.

Modules:

- `Wrappers`: `Option`.
- `PyStr`: the Python `str` methods the pipeline relies on, over an ASCII
  alphabet: `upper`, `replace` (every occurrence, including an empty pattern),
  `split`, `join`, `strip`, and the `\w`, `\s` and `string.punctuation` classes.
- `Regex`: a backtracking model of the three-group pattern
  `L{a,b}\s*D{c,d}\s*L{e,f}`. It tries the left group longest first, then each
  `\s*`, the digits and the suffix longest first, which is Python's
  greedy-with-backtracking order. It also models the leftmost `search`.
  `extract_plate` and `process_pattern` both use it, with their own bounds and
  letter classes.
- `TextProcessing`: `text_processing.py`.
- `PlateScript`: the per-plate glue of `main.py`, and its vehicle loop with
  detection and OCR results passed in.
- `Scenarios`: concrete inputs, each derived from the general lemmas. Some
  come from the comments and the commented-out examples in the source; the
  others are constructed cases for the threshold, ties, artifacts and labels.

`fuzz.ratio` is a parameter `ratio: (string, string) -> Score`, with `Score` in
0..100. The reference table loaded from `data.json` is a parameter
`table: seq<Record>`.

Where the documentation and the code disagree, the model follows the code:

- The documentation says the leading code token is replaced. The code calls
  `text.replace(token, kode)`, which rewrites every occurrence, including one
  inside the suffix letters. `CorrectPlate` and `CorrectionReachesSuffix` state
  this.
- The comment at `text_processing.py:50` asks for two letters. The regular
  expression accepts one or two, and `Structural` states that.
- A bracketed stamp `<1><2>.<3><4>` is deleted only when word characters flank
  it on both sides. Each `\b` next to a `<` or a `>` needs a word character on
  its other side. `StampRemoved` and `LoneStampKept` show this.

## Model

| member | source | states |
|---|---|---|
| PyStr.PunctuationIsTheConstant | text_processing.py:25 | the punctuation predicate holds exactly for the 32 characters of `string.punctuation` |
| PyStr.Upper | text_processing.py:57 | `upper()` keeps the length and leaves no lower-case letter; exactly the letters become capitals, each lower-case letter moves down by 32 code points to its capital, and every other character is unchanged |
| PyStr.UpperIdempotent | main.py:85 | upper-casing twice is upper-casing once |
| PyStr.UpperAppend | text_processing.py:57 | `upper()` works character by character: upper-casing a concatenation concatenates the upper-cased parts |
| PyStr.ReplaceChar | main.py:85 | replacing one character by another keeps the length and rewrites exactly the positions holding that character |
| PyStr.Replace | text_processing.py:45 | `replace` with a non-empty pattern and a replacement of the same length keeps the length, and replacing a pattern by itself changes nothing |
| PyStr.ReplaceAbsent | text_processing.py:45 | `replace` returns text unchanged when the pattern does not occur in it |
| PyStr.ReplaceAtFront | text_processing.py:45 | an occurrence at the front is rewritten and the scan resumes after it |
| PyStr.ReplaceSkipsPrefix | text_processing.py:45 | a prefix whose characters cannot start the pattern is copied through unchanged |
| PyStr.ReplaceFirst | text_processing.py:45 | for a pattern of any length: the text before its first occurrence is copied, that occurrence becomes the replacement, and the scan resumes right after it |
| PyStr.Split | text_processing.py:34 | `split(" ")` returns at least one piece, no piece holds the separator, and joining the pieces with it gives back the input |
| PyStr.FirstToken | text_processing.py:34 | `split(" ")[0]` is a space-free prefix of the input, followed by a space whenever it is shorter than the input |
| PyStr.FirstTokenOf | text_processing.py:34 | `split(" ")[0]` of `a + " " + b` is `a` when `a` holds no space |
| PyStr.Join | main.py:82 | joining no pieces gives `""` and one piece gives that piece; the result starts with the first piece, followed by the separator when there are two or more pieces |
| PyStr.JoinAppend | main.py:99 | joining two non-empty lists one after the other is joining each and putting one separator between them |
| PyStr.SplitJoin | main.py:82 | joining pieces with a separator that none of them contains is undone by splitting on it |
| PyStr.Strip | text_processing.py:59 | `strip()` leaves no whitespace at either end, never lengthens, and returns trimmed text unchanged |
| PyStr.StripTrimsEnds | text_processing.py:59 | `strip()` returns one contiguous infix of the input, and everything cut off before and after it is whitespace |
| PyStr.StripKeepsText | text_processing.py:59 | `strip()` removes whitespace only: the other characters stay, in order |
| PyStr.StripJoin | text_processing.py:59 | stripping two non-blank-bounded texts joined by a space strips each one and keeps the space between them |
| TextProcessing.RemoveArtifactsFrom | text_processing.py:19-20 | the `re.sub` scan from a position never lengthens the rest of the text, removes only artifact characters (digits, `.`, `<`, `>`) and keeps every other character in order, and returns text without a `.` unchanged |
| TextProcessing.DropArtifact | text_processing.py:19 | a word-bounded `DD.DD` (5 characters) or `<D><D>.<D><D>` (13 characters) consists of artifact characters only, one of them a `.` |
| TextProcessing.SkipArtifact | text_processing.py:19-20 | a scan that meets a match resumes right after its 5 or 13 characters, emitting nothing for it |
| TextProcessing.CopyCharacter | text_processing.py:19-20 | a scan at a position where no match starts emits that character and moves on by one |
| TextProcessing.CopiedUntil | text_processing.py:19-20 | a stretch with no match starting in it is copied through unchanged |
| TextProcessing.RemovePatternStrings | text_processing.py:18-21 | `remove_pattern_strings` never lengthens its input, removes only artifact characters and keeps the rest in order, and returns text without a `.` unchanged |
| TextProcessing.RemovePatternStringsDeletesMatch | text_processing.py:18-21 | the text before the leftmost match is kept, the match itself (5 characters for `DD.DD`, 13 for a stamp) is deleted, and the scan resumes right after it |
| TextProcessing.FirstArtifact | text_processing.py:19-20 | wherever a match occurs, there is a leftmost one at or before it |
| TextProcessing.RemovePatternStringsUnchanged | text_processing.py:18-21 | `remove_pattern_strings` returns its input unchanged exactly when the pattern matches nowhere in it |
| TextProcessing.RemovePatternStringsAddsNothing | text_processing.py:20 | the deletion puts nothing in the place of a match: every non-artifact character of the output was in the input |
| TextProcessing.RemoveArtifactsKeepsPrepared | text_processing.py:20 | text without colons and lower-case letters stays so after the deletion |
| TextProcessing.RemovePunctuation | text_processing.py:24-26 | the output holds no punctuation, and text without punctuation is returned unchanged |
| TextProcessing.RemovePunctuationAppend | text_processing.py:24-26 | `translate` works character by character: the punctuation-free concatenation is the concatenation of the punctuation-free parts |
| TextProcessing.RemovePunctuationChar | text_processing.py:25-26 | a single character is dropped exactly when it is one of the punctuation characters, and kept otherwise |
| TextProcessing.RemovePunctuationCounts | text_processing.py:25-26 | every non-punctuation character keeps its number of occurrences, and punctuation occurs zero times |
| TextProcessing.CollapseSpaces | text_processing.py:59 | `re.sub(r'\s+', ' ', t)` leaves only space characters as whitespace, with no two in a row; the output is empty exactly when the input is, and it starts with a space exactly when the input starts with whitespace |
| TextProcessing.CollapseAddsNothing | text_processing.py:59 | collapsing brings in no character other than the space: every other output character occurs in the input |
| TextProcessing.CollapseKeepsText | text_processing.py:59 | collapsing changes whitespace only: the other characters stay, in order |
| TextProcessing.CollapseSingleSpaces | text_processing.py:59 | text whose whitespace is already single spaces is left as it is |
| TextProcessing.CollapseSpacesAppend | text_processing.py:59 | collapsing text that follows a non-blank character collapses each part on its own |
| TextProcessing.CollapseSeparates | text_processing.py:59 | a whitespace run between two non-blank characters becomes exactly one space, and each side is collapsed on its own |
| TextProcessing.CollapseKeepsLast | text_processing.py:59 | a final non-blank character stays the last character after collapsing |
| TextProcessing.Normalize | text_processing.py:57-59 | the normalised text is upper-case, free of punctuation, trimmed and has no two spaces in a row |
| TextProcessing.NormalizeNormalizes | text_processing.py:57-59 | normalised text is upper-case, free of punctuation, trimmed and has no two spaces in a row; its non-blank characters are those of the upper-cased, punctuation-free input, in order |
| TextProcessing.NormalizeSeparates | text_processing.py:57-59 | two tokens that end and start with a character neither blank nor punctuation, separated by any whitespace run, stay separate: the run becomes exactly one space and each side is normalised on its own |
| TextProcessing.NormalizedIsFixed | text_processing.py:57-59 | normalised text is a fixed point of the normalisation |
| TextProcessing.NormalizeIdempotent | text_processing.py:57-59 | normalising twice is normalising once |
| Regex.MatchAt | text_processing.py:61 | the backtracking attempt at a start position finds a match exactly when one exists, and the one it finds comes first in backtracking order |
| Regex.Search | text_processing.py:64 | `search` returns the leftmost start with a match and the match that backtracking tries first there; `None` only when nothing matches anywhere |
| Regex.GroupsOf | text_processing.py:69 | the captured groups have the matched lengths and the classes of their parts |
| Regex.MaximalIsFirst | text_processing.py:61 | a match in which every group is at its bound or followed by a character outside its class comes before every other match at that start |
| Regex.ForcedMatch | text_processing.py:61 | such a maximal match is the one the engine returns |
| TextProcessing.Structural | text_processing.py:61-69 | on a match, left is 1-2 capitals, mid 2-5 digits and right 1-3 capitals, and the three groups are the slices of the text at the leftmost start with a match, taken from the match that backtracking tries first there; there is no match exactly when the pattern matches nowhere in the text |
| TextProcessing.AssembleLayout | text_processing.py:70 | `f"{left} {mid} {right}"` puts the three groups in order, at their own lengths, with exactly one space between each pair |
| TextProcessing.Adopted | text_processing.py:38-43 | the record kept after scanning a table prefix scores strictly above 40, scores at least as high as every record seen, and strictly higher than every earlier one; no record is kept only when none scores above 40 |
| TextProcessing.Correct | text_processing.py:33-47 | without a record above 40, the text comes back unchanged with no region; otherwise every occurrence of the first token is replaced by the first best record's code, and that record's place names are returned |
| TextProcessing.TypoCorrection | text_processing.py:33-47 | the loop with its running maximum returns exactly what `Correct` describes |
| TextProcessing.AssembledToken | text_processing.py:34 | the first space-separated token of an assembled plate is its leading code |
| TextProcessing.ReplacePlateCode | text_processing.py:45 | replacing the code in an assembled plate rewrites the leading code and every occurrence in the suffix; the digits and both spaces stay |
| TextProcessing.CorrectPlate | text_processing.py:44-47 | on an assembled plate the correction keeps the digit group and the spaces, rewrites the leading code to the first best record's code and also rewrites occurrences in the suffix; without adoption the plate is unchanged |
| TextProcessing.CorrectionReachesSuffix | text_processing.py:45 | with code `A` corrected to `B`, `"A 12 AB"` becomes `"B 12 BB"`: the suffix letter is rewritten too |
| TextProcessing.ExtractPlate | text_processing.py:52-74 | the plate is `None` exactly for empty input or normalised text without the structure; the region is then `None` too; a plate always contains a space |
| TextProcessing.ExtractPlateOnMatch | text_processing.py:61-74 | when the normalised text holds the plate structure with groups `g`: with no region the plate is `left mid right` of the leftmost match unchanged; with a region there is a first best record `k` scoring above 40, the plate is its `kode`, a space, `mid`, a space and `right` with every occurrence of `left` replaced by that `kode`, and the region is that record's `daerah` |
| TextProcessing.ReformatFrom | text_processing.py:13 | where the reformatting pattern matches nowhere from the scan position on, the rest of the text is copied unchanged |
| TextProcessing.ProcessPattern | text_processing.py:11-14 | `process_pattern` returns text in which its pattern matches nowhere unchanged |
| TextProcessing.ReformatWhole | text_processing.py:11-14 | a maximal match covering the whole input is rewritten to its three groups separated by single spaces |
| TextProcessing.ProcessPatternExample | text_processing.py:10-14 | `"AB1234CD"` becomes `"AB 1234 CD"` |
| PlateScript.Texts | main.py:82 | the fragment texts, one per fragment, in OCR order |
| PlateScript.RawText | main.py:79-82 | no fragments give `""`, and a single fragment gives its own text |
| PlateScript.RawTextSplitsBack | main.py:82 | when no fragment contains a space, the raw text splits back into the fragment texts in OCR order |
| PlateScript.PrepareRaw | main.py:85 | keeps the length and leaves no `:` and no lower-case letter; each colon becomes `.`, every other character is its upper-cased self, and no `.` appears where there was none |
| PlateScript.Cleaned | main.py:79-88 | the text handed to `extract_plate` holds no colon and no lower-case letter, and is empty when OCR read nothing |
| PlateScript.PlateLabel | main.py:94-97 | the plate label is the extracted plate, or `"N/A"` when there is none |
| PlateScript.RegionLabel | main.py:94-99 | with a plate and a non-empty list of place names, the region label is the names joined by `", "`; without a plate, without a region or with an empty list it is `"N/A"` |
| PlateScript.ReadPlate | main.py:88-101 | the plate label is `"N/A"` exactly when extraction finds no plate, and otherwise it is the extracted plate, with the region label the joined place names or `"N/A"` for a missing or empty list; an `"N/A"` plate comes with an `"N/A"` region, as does a missing region; no fragments give `("N/A", "N/A")` |
| PlateScript.PlateIsNotNotAvailable | main.py:94-95 | an extracted plate can never be mistaken for the `"N/A"` marker |
| PlateScript.LocatePlate | main.py:57-69 | no plate box means the vehicle is skipped; the first box is shifted by the vehicle's top-left corner, keeping width and height; it is too narrow exactly when its width is below 90 |
| PlateScript.PlateReader | main.py:88-101 | the text pipeline never shows a region next to an `"N/A"` plate |
| PlateScript.AnnotateVehicle | main.py:56-101 | a vehicle without a plate box produces nothing; otherwise the annotation's box is the first plate box shifted into image coordinates; labels are drawn exactly on boxes of width 90 or more, and they are what the reader gives for that vehicle's OCR fragments |
| PlateScript.Annotations | main.py:50-101 | the first `n` vehicles give at most `n` annotations; each carries labels exactly when its box is at least 90 wide; all `n` are annotated when each has a plate box, and none when none has |
| PlateScript.AnnotationsInOrder | main.py:50-101 | the first `n` vehicles give exactly one annotation per vehicle with a plate box (`Plated(plates, n)` of them), in vehicle order: vehicle `i` with a plate box is annotation number `Plated(plates, i)`, and that annotation is its `AnnotateVehicle` |
| PlateScript.AnnotationsFacts | main.py:50-101 | at most one annotation per vehicle, and with a reader that, like the script's, pairs an `"N/A"` plate with an `"N/A"` region, every annotation is labelled exactly when its box is wide enough and shows `"N/A"` as region whenever it shows it as plate |
| PlateScript.AnnotateImage | main.py:50-101 | the loop with its `continue`s produces the annotations of the vehicles in order |
| Scenarios.TrailingIgnored | text_processing.py:79 | `"AB 1234 CDX 50"` gives the groups `AB`, `1234`, `CDX`; the trailing digits are ignored |
| Scenarios.NoSpacesNeeded | text_processing.py:80 | `"AB1234CDX50"` gives the same groups |
| Scenarios.ExactCode | text_processing.py:38-46 | an exact code above the threshold keeps the text and returns the region |
| Scenarios.TypoFixed | text_processing.py:40-46 | a code scoring 50 replaces the misread `AD` |
| Scenarios.ThresholdIsStrict | text_processing.py:40 | a best score of exactly 40 corrects nothing |
| Scenarios.FirstOfEqualsWins | text_processing.py:40 | of two records with equal best scores, the earlier is adopted |
| Scenarios.DateRemoved | text_processing.py:17-20 | `"12.34 XY 99 ZZ"` loses its date and nothing else |
| Scenarios.StampRemoved | text_processing.py:17-20 | a stamp between two letters is deleted |
| Scenarios.LoneStampKept | text_processing.py:19 | a stamp with no word character on either side is left alone |
| Scenarios.ColonArtifact | main.py:85-88 | a time read as `"12:34"` is deleted, because the colon becomes a period first |
| Scenarios.NothingRead | main.py:79-80 | no OCR fragments give the labels `("N/A", "N/A")` |
| Scenarios.DateThenUnknownCode | main.py:79-101 | a reading with a date and a code no record matches shows the plate `"XY 99 ZZ"` and the region `"N/A"` |

## Left out

- The Streamlit upload and display, and the image conversions (`main.py:11-39`,
  `main.py:111-112`): interface and library plumbing.
- YOLO detection and EasyOCR (`main.py:28-30, 42, 52, 76`): opaque models. OCR
  results are a given sequence of fragments holding their text; the boxes and
  confidences EasyOCR also returns are not modelled.
- OpenCV drawing, colour conversion and crop slicing (`main.py:20, 43, 65, 73,
  105-108`): rendering on pixel buffers. The loop returns the list of
  annotations that would be drawn instead of mutating the image.
- Loading `data.json` at import time (`text_processing.py:7`): the table is an
  explicit immutable parameter.
- The internals of `fuzz.ratio` (`text_processing.py:39`): a foreign library.
  It is an arbitrary function into 0..100.
- Full Unicode: `upper()`, `\s`, `\w` and `string.punctuation` are modelled on
  ASCII; other characters are neither letters, digits nor whitespace.
- The `strict` parameter of `extract_plate` is never read, so it is not
  modelled.
- TextProcessing.ProcessPattern, TextProcessing.ReformatFrom: `process_pattern`
  is never called by the application. It is modelled, but no general lemma says
  how it rewrites an input with several matches; the contracts cover input
  without a match and the worked example.
- PlateScript.AnnotateImage: the OCR reader is a parameter, because the
  vehicle loop calls OCR, which is foreign. `PlateReader` is the reader of the
  application, and `AnnotationsFacts` holds for every reader that, like it,
  shows `"N/A"` for the region whenever it shows `"N/A"` for the plate.
- PlateScript.RawText: states the empty and single-fragment cases outright.
  For several fragments the join is tied back to the fragments through
  `RawTextSplitsBack`, which needs fragments without spaces.
- The non-list branch of the region label (`main.py:100-101`): a table record's
  `daerah` is modelled as a list of place names, so `typo_correction` returns
  either no region or such a list, and the branch for a region held as a plain
  string is not modelled.
