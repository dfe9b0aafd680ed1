# Knowledge-Graph text normalisation, in Dafny

This project models the text normalisation that `Model.__preprocess_doc`
applies to a raw document before handing it to the spaCy annotation
pipeline (src/model.py). There are two regular-expression substitutions,
applied in this order:

1. `re.sub(r'\n+', '.', s)`: every maximal run of line feeds becomes one
   full stop (module `NewlineCollapse`, file `newlines.dfy`).
2. `re.sub(r'\[\d+\]', ' ', s)`: every bracketed numeric reference marker
   such as `[12]` becomes one space (module `RefMarkers`, file `markers.dfy`).

Module `Preprocess` (file `preprocess.dfy`) composes the two. The source
lines are a straight chain of pure string rewrites, so they are modelled as
recursive functions over `string`. Each function follows Python's
left-to-right, non-overlapping `re.sub` scan. At a line feed, the greedy
`\n+` takes the whole run (`NewlineRun`). At a `[`, the pattern matches when
one or more digits and then a `]` follow (`DigitRun`, `MarkerLength`). Because
`]` is not a digit, the greedy `\d+` never backtracks, so the match at a
position depends only on the characters there.

The properties are proved as lemmas:
- After collapsing, no line feed is left, and the result agrees with an
  independent position-by-position definition.
- After stripping, no marker is left.
- Each step leaves a string unchanged exactly when the string has nothing
  for that step to rewrite.
- Neither step lengthens the text.
- The composition is idempotent.
- The two steps commute. `"[1\n2]"` normalises to `"[1.2]"` in either order:
  the line feed breaks the marker, so the bracketed text survives.

## Model

| member | source | states |
|---|---|---|
| NewlineCollapse.NewlineRun | src/model.py:23 | the greedy `\n+` at a position takes every line feed there and stops at the first other character |
| NewlineCollapse.CollapseNewlines | src/model.py:23 | the collapsed text contains no line feed and is never longer than the input |
| NewlineCollapse.CollapseMatchesByPosition | src/model.py:23 | the greedy scan equals the position-by-position reading: a line feed followed by a line feed is dropped, the last line feed of a run becomes '.', other characters are copied |
| NewlineCollapse.CollapseRun | src/model.py:23 | a run of k >= 1 line feeds not followed by another line feed becomes exactly one '.' |
| NewlineCollapse.CollapseIdentity | src/model.py:23 | collapsing leaves a string unchanged if and only if it contains no line feed |
| NewlineCollapse.CollapseAppend | src/model.py:23 | collapsing distributes over concatenation when the split does not fall inside a run of line feeds, so characters away from runs keep their place and order |
| NewlineCollapse.CollapseVerbatimPrefix | src/model.py:23 | a prefix of the result with no '.' is the same prefix of the input |
| RefMarkers.DigitRun | src/model.py:24 | the greedy `\d+` takes every leading digit and stops at the first non-digit |
| RefMarkers.MarkerLength | src/model.py:24 | the match at the front of a string, when there is one, is a `[` digits `]` marker no longer than the string |
| RefMarkers.MarkerLengthUnique | src/model.py:24 | every prefix that is a marker is the match, so the scan misses no marker starting at its position and the match is unique |
| RefMarkers.StripRefMarkers | src/model.py:24 | stripping never lengthens the text |
| RefMarkers.StripMarkerPrefix | src/model.py:24 | a marker at the front becomes a single space, whatever follows it |
| RefMarkers.StripCopiesHead | src/model.py:24 | a leading character that opens no marker (any character other than '[', or a '[' not followed by digits and ']') is copied unchanged |
| RefMarkers.StripVerbatimPrefix | src/model.py:24 | a prefix of the result with no space is the same prefix of the input |
| RefMarkers.StripLeavesNoMarker | src/model.py:24 | no substring of the stripped text is a `[` digits `]` marker |
| RefMarkers.StripIdentity | src/model.py:24 | stripping leaves a text unchanged if and only if the text contains no marker |
| RefMarkers.StripIdempotent | src/model.py:24 | stripping twice gives the same text as stripping once |
| RefMarkers.StripKeepsOtherChars | src/model.py:24 | a character that is not a space, a bracket or a digit occurs in the result if and only if it occurs in the input, so no line feed is introduced or removed |
| RefMarkers.StripShrinks | src/model.py:24 | stripping shortens the text if and only if a marker is present, and then by at least two characters |
| RefMarkers.BracketKept | src/model.py:24 | `[x]` where x contains no bracket and is not one or more digits is kept verbatim |
| RefMarkers.BracketExamples | src/model.py:24 | `"[]"`, `"[a]"` and `"[1a]"` are kept verbatim |
| RefMarkers.MarkerExample | src/model.py:24 | `"[12]"` becomes `" "` |
| RefMarkers.NestedBracketExample | src/model.py:24 | in `"[[1]"` the first '[' opens no marker and is kept, so the text becomes `"[ "` |
| Preprocess.PreprocessText | src/model.py:23-24 | the normalised text has no line feed, no marker, and is never longer than the input |
| Preprocess.PreprocessIdempotent | src/model.py:23-24 | normalising a normalised text changes nothing |
| Preprocess.PreprocessIdentity | src/model.py:23-24 | normalisation leaves a text unchanged if and only if it holds neither a line feed nor a marker |
| Preprocess.StepsCommute | src/model.py:23-24 | collapsing then stripping gives the same text as stripping then collapsing |
| Preprocess.BrokenMarkerSurvives | src/model.py:23-24 | `"[1\n2]"` normalises to `"[1.2]"`, which is kept because it is not a marker |

## Left out

- `\d` is modelled as the ASCII digits `0`-`9` only. Python's `\d` on `str` also matches other Unicode decimal digits, such as Arabic-Indic digits.
- The spaCy annotation of the cleaned text (src/model.py:25), the coreference branch and its second `nlp` call (src/model.py:26-27), and the model load and neuralcoref registration (src/model.py:9-10) are calls into foreign libraries whose behaviour is not visible here.
- `Model.__init__` (src/model.py:15-17) only stores the `coreference` flag. The flag is read only by the coreference branch, which is left out above.
- Sentence splitting in `fit` (src/model.py:33) depends on spaCy's segmentation. The rest of `fit` (src/model.py:34), `__extract_entity` (src/model.py:19-20) and `visulize` (src/model.py:36-37) are `pass` and have no behaviour to model.
- The triple extraction, span merging, simple-sentence filter, entity refiner with its cache, list/table views and save/load are described for the system but do not exist in src/model.py, so there is nothing to model them against.
- src/downLoad.py is left out. It fetches Wikipedia pages over the network with a thread pool, reports progress with tqdm, and assembles a pandas DataFrame. Its few pure fragments are one-liners applied to network results.
- The networkx and matplotlib imports (src/model.py:5-6) are unused presentation code.
