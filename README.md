# ascii-art glyph engine in Dafny

This project models the glyph-mapping engine of `AsciiCamera` (`src/main.py`), which turns
camera frames into character mosaics drawn in a terminal. The model covers four parts:

- **Table builders.** `_init_intensity_to_ascii` measures the 94 printable characters. It
  normalises each raw coverage to `raw / max * 256` and sorts the pairs stably by that key.
  `_init_intensity_to_emoji` keeps the one-code-point emoji whose average colour has a shape.
  It sorts them stably by the sum of the colour components.
- **Matchers.** `_get_closest_character` dispatches on the mode. The black-and-white matcher
  returns the glyph of the first entry nearest to the query, doubled. The colour matcher
  returns the glyph of the first entry whose colour is nearest, undoubled.
- **Frame to lines.** `_image_to_vocab` and its duplicate `_image_to_emoji` walk the frame row
  by row. Each pixel's channel mean goes through the matcher. Each row becomes one line.
- **`run`.** Its mode check comes first, then the per-frame conversion it repeats.

Modules, one per component:

- `Common`: bytes, `Option`, `Result` and the three errors the engine raises.
- `Sorting`: Python's stable `sorted` on a real key, as an insertion sort. It also holds an
  independent definition of "stable sort of" and a proof that this definition has exactly one
  solution.
- `ArgMin`: Python's `min` with a key, which keeps the first minimum.
- `GlyphTables`: the two table builders.
- `Matching`: the matchers and the mode dispatch.
- `Frames`: `_image_to_vocab` as a method with nested loops, proved against `FrameText`.
- `AsciiCamera`: the camera's fields, `__init__`, the mode check of `run`, and `run`'s loop
  over the frames it is given.
- `Scenarios`: worked cases.

Arithmetic is exact (`real`). The font rasteriser is a parameter. For a character it gives the
coverage mask. For an emoji it gives the average colour, or `None` when that average has no
shape. The camera's fields are written once in `__init__` and only read after that, so
`Camera` is an immutable datatype rather than a class.

Four behaviours of the code are easy to misread; the model keeps each one as written:

- **All-blank font.** Nothing guards against a zero maximum, so the division
  `ch[0]/max_character_intensity` (src/main.py:33) raises `ZeroDivisionError`. That is
  `Failure(DivisionByZero)` here.
- **Key range.** The glyph with the largest raw intensity gets exactly 256, so keys lie in
  [0, 256].
- **Emoji query.** Emoji mode passes the scalar `np.mean(pixel)` to the colour matcher
  (src/main.py:74). NumPy broadcasting then compares each emoji colour with the grey
  `(m, m, m)`. `ClosestCharacter` does the same.
- **Unsupported mode.** `run` does `raise 'Mode not supported'`. In Python 3 raising a string
  is itself a `TypeError`, so `run` still aborts before any frame. That is
  `Failure(ModeNotSupported)` here.

## Model

| member | source | states |
|---|---|---|
| `Sorting.SortBy` | src/main.py:33 | the sorted table is a permutation of the unsorted list (same multiset) |
| `Sorting.SortByIsStableSort` | src/main.py:33 | the insertion sort is a stable sort: sorted by key, and the entries sharing a key keep their input order |
| `Sorting.StableSortUnique` | src/main.py:38 | any sequence that is sorted by key and keeps each key's entries in input order equals `SortBy`'s result, so `SortBy` is exactly what `sorted(..., key=...)` returns |
| `ArgMin.FirstArgMin` | src/main.py:60 | `min` with a key returns a position whose key is ≤ every key and < every earlier key, so the first minimum wins |
| `ArgMin.FirstMinUnique` | src/main.py:65 | at most one position is the first minimum |
| `GlyphTables.CharacterIntensity` | src/main.py:40-44 | the coverage sum divided by the font height (64) and multiplied by the font width (64) equals the plain coverage sum, and is non-negative |
| `GlyphTables.MaxKey` | src/main.py:32 | `max` by key returns a key that is ≥ every key and carried by some entry |
| `GlyphTables.ScaleBounds` | src/main.py:33 | `raw / max * 256` lies in [0, 256] for 0 ≤ raw ≤ max, and reaches 256 exactly when raw == max |
| `GlyphTables.AsciiTableFailsIffBlank` | src/main.py:31-33 | building the ASCII table fails, by a division by zero, exactly when every printable character rasterises blank |
| `GlyphTables.AsciiTableKeys` | src/main.py:31-33 | unless every glyph is blank the table is built; every entry belongs to a printable character, its key is that character's raw intensity / max * 256 and lies in [0, 256], and it is 256 iff the raw intensity is the maximum; some entry has key 256 |
| `GlyphTables.AsciiTableGlyphs` | src/main.py:31-33 | unless every glyph is blank the table is built, has 94 entries, and its glyphs are `string.printable[:94]` rearranged, each as often as it occurs there |
| `GlyphTables.AsciiTableOrder` | src/main.py:31-33 | unless every glyph is blank the table is built, and it is a stable sort by key of the normalised list in `printable` order, so equal keys keep their character order |
| `GlyphTables.MeasuredMembers` | src/main.py:36-37 | the filtered emoji list holds exactly the candidates of length 1 whose colour has a shape, each with that colour |
| `GlyphTables.EmojiTableMembers` | src/main.py:36-38 | an entry is in the emoji table iff some candidate of length 1 has that entry's glyph and a colour with a shape equal to the entry's colour; so every glyph there is one code point long |
| `GlyphTables.EmojiTableOrder` | src/main.py:38 | the emoji table is the filtered list with nothing added or removed (same multiset), sorted stably by colour sum, so ties keep their encounter order |
| `GlyphTables.EmojiTableEmpty` | src/main.py:36-38 | the emoji table is empty iff no candidate has length 1 and a colour with a shape |
| `Matching.ClosestBw` | src/main.py:59-62 | the ASCII matcher's output is a glyph written twice (two equal characters) |
| `Matching.ClosestBwNearest` | src/main.py:59-62 | the doubled glyph is that of an entry with least `abs(key - q)`, no earlier entry being as near; a one-entry table always gives that entry |
| `Matching.ClosestRgbNearest` | src/main.py:64-67 | the undoubled glyph is that of an entry with least distance from its colour to the query, no earlier entry being as near; a one-entry table always gives that entry |
| `Matching.ClosestCharacter` | src/main.py:53-57 | a glyph comes back iff the mode is "ascii" or "emoji"; "emoji" routes to the colour matcher with the grey `(q, q, q)`, "ascii" to the doubling matcher |
| `Frames.Mean` | src/main.py:74 | the channel mean of a pixel lies in [0, 255] |
| `Frames.ImageToVocab` | src/main.py:69-77 | the nested loops produce exactly `FrameText`: one line per row, top to bottom, each the left-to-right concatenation of the matcher outputs |
| `Frames.AsciiLine` | src/main.py:71-75 | in ascii mode a row of W pixels becomes 2·W characters, characters 2j and 2j+1 being the doubled nearest glyph of pixel j |
| `Frames.EmojiLine` | src/main.py:71-75 | in emoji mode, with one-code-point glyphs, a row of W pixels becomes W characters, character j being the glyph nearest to the grey of pixel j's mean |
| `AsciiCamera.NewCamera` | src/main.py:23-28 | construction fails, by a division by zero, exactly when every printable glyph is blank; otherwise it stores mode, width and height, the ASCII table `BuildAsciiTable` builds from the font and the emoji table `BuildEmojiTable` builds from the candidates, and both tables are well formed |
| `AsciiCamera.BuiltCameraWellFormed` | src/main.py:24-25 | the tables `__init__` builds: 94 ASCII entries sorted by key in [0, 256], emoji entries sorted by colour sum with one-code-point glyphs |
| `AsciiCamera.SelectVocabulary` | src/main.py:90-95 | `run` accepts exactly "ascii" and "emoji", picking the table of that kind, and rejects every other mode |
| `AsciiCamera.ImageToEmoji` | src/main.py:79-87 | the unused `_image_to_emoji` produces the same lines as `_image_to_vocab` with the emoji table |
| `AsciiCamera.Run` | src/main.py:89-118 | an unsupported mode fails before any frame; otherwise every frame becomes one screen equal to `FrameText`, and the run fails only when a frame with a pixel meets an empty table |
| `AsciiCamera.ScreenShape` | src/main.py:112-117 | for a camera built by `__init__`, an H×W frame becomes H lines of 2·W characters in ascii mode and W in emoji mode |
| `Scenarios.NearestKeyIsDoubled` | src/main.py:60-62 | keys 0, 50, 100 and query 40 give "bb" |
| `Scenarios.NearestColourIsSingle` | src/main.py:65-67 | black and white and query grey 10 give black's emoji, undoubled |
| `Scenarios.UniformGreyFrame` | src/main.py:69-77 | a 2×2 frame of grey 128 against keys 0, 128, 256 gives two lines "bbbb" |

## Left out

- Camera capture and the main loop's exits are not modelled (`cv2.VideoCapture`, `cam.read`, the key poll, the "failed to grab frame" exit). They are device I/O. `Run` takes the frames delivered before the loop stops.
- Resizing and contrast adjustment (`cv2.resize`, `cv2.convertScaleAbs`) are foreign image transforms. The frames `Run` receives are already resized and adjusted.
- Terminal painting with curses is a side effect. `Run` returns the lines that would be painted.
- Font loading and rasterisation (`ImageFont.truetype`, `getmask`, `np.average`) are foreign calls. They are parameters of the builders, and a font that cannot be opened is not modelled.
- The emoji registry slice `emoji.EMOJI_DATA[100:300]` depends on an external registry. The candidate list is a parameter.
- Command-line parsing (argparse, with its `choices` and defaults) is argument handling, not engine logic.
- Floating-point rounding in `/`, `np.mean` and `np.linalg.norm` is not modelled. Arithmetic is exact, and the colour matcher compares squared distances. `sqrt` is monotone, so the chosen entry is the same.
- Matching.ClosestBwNearest: requires a non-empty table. `min` on an empty list raises `ValueError`, and that error is modelled one level up, in `Run`.
- Matching.ClosestCharacter: requires that the table kind matches the mode, because `run` always pairs the mode with its own table (src/main.py:90-93). A mismatched pair behaves in two ways. In ascii mode with the emoji table, `abs(x[0]-intensity)` is a 3-vector, and `min` raises when it compares two of them; a one-entry table gives that emoji doubled. In emoji mode with the ASCII table, `x[0]-intensity` is a 0-d value whose norm is its absolute value, so the first nearest character comes back undoubled and nothing raises.
- Frames.ImageToVocab: requires the mode to be "ascii" or "emoji" with a table of that kind. With any other mode the matcher returns `None`, and `line += None` (src/main.py:74) raises `TypeError` at the first pixel, before anything is added to the line. A frame without pixels gives its empty lines. `run` never calls it with such a mode.
- AsciiCamera.ImageToEmoji: requires the camera to be in emoji mode. In ascii mode the source hands the emoji table to the black-and-white matcher. With two or more entries, `min` compares array distances and NumPy raises. With one entry, `min` compares nothing and that emoji comes back doubled. With no entries, `min` raises `ValueError`.
- AsciiCamera.Run: on failure it returns only the error. The screens painted before the failing frame are not returned.
- GlyphTables.AsciiTableGlyphs: states the glyphs as a rearrangement of `string.printable[:94]`. It does not separately prove that those 94 characters are pairwise distinct.
