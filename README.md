# Candy counter: a Dafny model

The system counts coloured candy in photographs. For each selected colour it
thresholds the HSV image against that colour's fixed bounds, cleans the mask
with morphology, blurs it, runs edge detection, extracts the outer contours and
counts those whose area is strictly between 50 and 1600 pixels. The per-colour
counts are merged into one dictionary keyed by colour name.

The model has three modules:

- `Colors` (`colors.dfy`): the bound table (`LYELLOW` … `UGREEN`) as constants,
  the `Color` flag enumeration as a 4-bit value (`Flags`, so `Color(0)` through
  the union of all four members), `Bit` for the value `auto()` gives each member,
  `Union` for `|`, `Has` for the truth of `sel & Color.X`, and `Members` for the
  set of members a flag holds.
- `OpenCv` (`opencv.dfy`): the library routines the detector calls. `cv2.inRange`
  is modelled by its per-pixel meaning (255 where every channel is within the
  inclusive bounds, 0 elsewhere). `morphologyEx`, `GaussianBlur`, `Canny`,
  `findContours` and `contourArea` are fields of the record `Stages`, which every
  detector operation takes as a parameter: the model proves its properties for
  every choice of these routines.
- `Detect` (`detect.dfy`): `Morph` (`morph`: opening with a 3×3 kernel, then
  closing with a 2×2 kernel), `FindCandy` (`findCandy`: the stages applied one
  after the other, then a loop over the contours that increments a counter),
  the function `CandyCount` that states what `FindCandy` returns, and
  `CountCandy` (`countCandy` from the downsampled HSV image on: one single-key
  dictionary per selected colour, merged with `|`, which Dafny's map `+` matches
  since the right operand wins on a shared key).

An empty selection is not an error: `countCandy` accepts `Color(0)` and returns
`{}`, which `Detect.NoColorEmpty` states.

## Model

| member | source | states |
|---|---|---|
| `Colors.Lower` | src/colors.py:5-12 | every lower bound has hue in 0..180 and saturation and value in 0..255 |
| `Colors.Upper` | src/colors.py:5-12 | every upper bound is in the same ranges and is component-wise at least the colour's lower bound |
| `Colors.BoundTable` | src/colors.py:5-12 | the table entry by entry, e.g. Red is (169,35,80)–(180,255,255) and Green (33,130,0)–(90,255,255) |
| `Colors.PurpleAndRedOverlap` | src/colors.py:7-10 | the ranges are not disjoint: some triple lies within both Purple's and Red's bounds |
| `Colors.Index` | src/colors.py:15-19 | a member's declaration position is below four |
| `Colors.Bit` | src/colors.py:15-19 | each member's value is one bit, the next power of two in declaration order (1, 2, 4, 8) |
| `Colors.InAllColors` | src/colors.py:15-19 | the four members are all the colours there are |
| `Colors.BitsDisjoint` | src/colors.py:15-19 | two members share a bit exactly when they are the same member |
| `Colors.MembersOfBit` | src/colors.py:15-19 | a single member, used as a selection, holds that member and nothing else |
| `Colors.MembersOfNoColor` | src/colors.py:15 | `Color(0)` holds no member |
| `Colors.HasUnion` | src/colors.py:15-19 | `(a \| b) & Color.X` is true exactly when `a & Color.X` or `b & Color.X` is |
| `Colors.MembersUnion` | src/colors.py:15-19 | the members of a union of flags are the union of their member sets |
| `Colors.UnionLaws` | src/colors.py:15-19 | union of flags is commutative, associative and idempotent, with `Color(0)` as unit |
| `Colors.MembersOfFromSet` | src/colors.py:15-19 | every set of colours is the member set of the flag built from it |
| `Colors.FromSetOfMembers` | src/colors.py:15-19 | a flag is recovered from its member set, so flags and sets of colours correspond one to one |
| `OpenCv.InRange` | src/detect.py:45 | the mask has the image's shape, every pixel is 0 or 255, and it is 255 iff each channel lies in the inclusive `[lower, upper]` range |
| `OpenCv.InBoundsEdges` | src/detect.py:45 | both bound triples are in range; any pixel one unit beyond either end of any channel is out of range, whatever its other channels hold |
| `OpenCv.Ones` | src/detect.py:19-20 | the structuring element is an n×n raster of ones |
| `Detect.CountSized` | src/detect.py:52-54 | the number of counted contours never exceeds the number of contours |
| `Detect.CountSizedIsSizedIndices` | src/detect.py:52-54 | the count equals the number of positions whose area is strictly greater than 50 and strictly less than 1600 |
| `Detect.CountSizedAppend` | src/detect.py:52-54 | counting is additive over concatenation, so each further contour adds 0 or 1 |
| `Detect.CountSizedZero` | src/detect.py:52-54 | the count is 0 iff no area is in the open range |
| `Detect.CountSizedAll` | src/detect.py:52-54 | the count equals the number of contours iff every area is in the open range |
| `Detect.AreaBoundaries` | src/detect.py:53 | a contour of area exactly 50 or 1600 is not counted; one of area 51 or 1599 is |
| `Detect.CandyCount` | src/detect.py:44-55 | `findCandy`'s result is at most the number of extracted contours |
| `Detect.SameMaskSameCount` | src/detect.py:45-51 | the count depends on the image only through which pixels fall within the bounds |
| `Detect.FindCandy` | src/detect.py:44-55 | the loop's counter equals the number of contours whose area is strictly between 50 and 1600, and is at most the number of contours |
| `Detect.KeyInjective` | src/detect.py:82-104 | distinct colours are reported under distinct keys |
| `Detect.CountCandyLookup` | src/detect.py:82-106 | a colour's key is in the result iff the colour is selected, and then maps to `findCandy` on that colour's own bounds |
| `Detect.CountCandyKeys` | src/detect.py:82-106 | the key set of the result is exactly the names of the selected colours |
| `Detect.CountCandyValues` | src/detect.py:82-106 | each selected colour's key maps to the non-negative count for that colour's bounds, e.g. `"red"` to the count for `LRED`, `URED` |
| `Detect.EntriesDisjoint` | src/detect.py:106 | the four single-colour dictionaries have pairwise disjoint keys |
| `Detect.KeyImageSize` | src/detect.py:106 | a set of colours has as many keys as colours |
| `Detect.MergeKeepsEntries` | src/detect.py:106 | the `\|` merge neither drops nor overwrites an entry, and the result has one entry per selected colour |
| `Detect.NoColorEmpty` | src/detect.py:82-106 | the empty selection `Color(0)` yields the empty dictionary, not an error |
| `Detect.SingleColor` | src/detect.py:82-106 | selecting one colour yields exactly that colour's single entry |
| `Detect.SelectedKeysUnion` | src/detect.py:82-106 | the keys selected by a union of flags are the keys selected by each |
| `Detect.UnionMergesAt` | src/detect.py:82-106 | at each key of a union, the result agrees with merging the two selections' results |
| `Detect.UnionMerges` | src/detect.py:82-106 | counting a union of selections gives the merge of the counts of each |
| `Detect.AllColorsReported` | main.py:31 | the selection the entry point passes, all four colours united, reports under all four keys |

## Left out

- Reading the image (`cv2.imread`), the BGR to HSV conversion (`cv2.cvtColor`) and the 20% resize (`cv2.resize`): decoding and colour conversion are library code, and resizing interpolates in floating point. `Detect.CountCandy` starts from the downsampled HSV image; a failed decode, which raises inside OpenCV rather than in the repository's code, is therefore not modelled.
- The internals of `cv2.morphologyEx`, `cv2.GaussianBlur`, `cv2.Canny`, `cv2.findContours` and `cv2.contourArea`: library routines with border handling and floating-point kernels. They are parameters (`OpenCv.Stages`); the model captures which routine is called with which arguments, in which order, but not what they compute. `findContours`' second result, the hierarchy, is unused by the code and not modelled.
- The order of keys in the result: Python's `red | yellow | green | purple` keeps insertion order (red, yellow, green, purple), which the JSON output then shows; a Dafny `map` has no order, so the model states only which keys are present and what they hold.
- Contour areas are `real`; the floating-point rounding of `contourArea` is not modelled, which matters only through the two strict comparisons.
- The colour of candy actually present in a picture: since the stages are parameters, properties such as "a solid red patch gives a red count of at least one" cannot be stated.
- `main.py` apart from the selection it passes: command-line parsing, directory listing and sorting, the progress bar and writing the JSON file are input and output around `countCandy`.
- `Morph` and `CandyContours` carry no contract of their own: they only compose library stages, and what they feed into is stated by `Detect.FindCandy` and `Detect.CandyCount`.
