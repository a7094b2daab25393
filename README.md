# Snapshot ordering and frame sampling for VTK movies

This project models the two pieces of logic in the movie utility of the SPH
demo post-processing scripts (`scenario/post_processing/utils/visualization.py`):

- `get_sorted_files` (module `SortedFiles`). It lists the entries of a snapshot
  directory and keeps those whose pathlib suffix equals the requested format
  exactly. It gives each kept entry an integer key: the stem is split on the
  split token, the last part is taken and it is parsed with `int()`. It then
  stable-sorts the kept entries by that key, so `name_2.vtk` comes before
  `name_10.vtk`. The directory is modelled as its path and an
  `Option<seq<string>>` of entry names, where `None` means the directory does
  not exist.
- The frame loop of `create_movie_from_vtk` (module `Movie`). It walks the
  sorted `.vtk` files with a 0-based index. It keeps an index exactly when
  `index % int(round(60 / fps)) == 0`. For each kept index it names the image
  `"frame_" + str(index).zfill(5) + ".png"` and appends that name to `frames`.
  The model also records which snapshot is rendered into each image.

The Python operations these rely on are modelled in their own modules.
`PathNames` holds pathlib's `suffix` and `stem` for a bare file name.
`PyText` holds `str.split`, `int()` on a text, `str()` on a non-negative
integer, `str.zfill` and code-point string comparison. `Wrappers` holds
`Option`, `Result` and one `Failure` constructor per exception the modelled
code raises: `IOError`, the two `ValueError`s and `ZeroDivisionError`.

`get_sorted_files` is pure, so it is written as functions with lemmas. The
loop is written as a method (`Movie.CollectFrames`). Its postcondition ties
`frames` to the sampled positions (`Movie.Sampled`), and lemmas state the
properties of those positions.

Behaviour of the code that the model keeps:

- Keys may repeat. The result is non-decreasing by key, not strictly
  increasing. Entries with equal keys keep their listing order, because
  Python's `sorted` is stable.
- `fps` is any integer. `60 / fps` and `index % stride` sit inside the loop
  body. So `fps == 0`, or a stride that rounds to 0 (any `fps >= 120` or `fps <= -120`), raises
  `ZeroDivisionError` only when there is at least one `.vtk` file. With no
  files the loop body never runs and nothing is raised.
- An `fps` between -119 and -1 gives a negative stride. Python's `%` then gives 0 exactly
  at the multiples of its absolute value, so it samples like the positive
  stride.
- `sorted(..., key=...)` computes every key before it compares anything. So
  one bad name fails the whole call, even when only one entry is kept. The
  failure reported is that of the first bad name in listing order. An empty
  split token makes `str.split` raise `ValueError` in the same way, but only
  when some entry is kept.

## Model

| member | source | states |
|---|---|---|
| `PathNames.Suffix` | scenario/post_processing/utils/visualization.py:35 | the suffix is non-empty exactly when the name has a dot after its first character and does not end in a dot; then it is the trailing part from the last dot, with no other dot in it |
| `PathNames.Stem` | scenario/post_processing/utils/visualization.py:40 | stem followed by suffix gives back the file name |
| `PathNames.SuffixOfExtension` | scenario/post_processing/utils/visualization.py:34-36 | a non-empty stem followed by a dot-led, dot-free extension has exactly that extension as suffix and that stem |
| `PyText.JoinSplit` | scenario/post_processing/utils/visualization.py:41 | joining the parts of `s.split(sep)` with `sep` gives `s` back |
| `PyText.SplitPartsFree` | scenario/post_processing/utils/visualization.py:41 | no part of a split contains the separator |
| `PyText.SplitFirstPart` | scenario/post_processing/utils/visualization.py:41 | the first part of a split runs up to the leftmost occurrence of the separator, or is the whole text when there is none |
| `PyText.LastPartAfterSeparator` | scenario/post_processing/utils/visualization.py:41-42 | with a one-character separator, the last part is the text after the last separator |
| `PyText.ParseInt` | scenario/post_processing/utils/visualization.py:43 | `int()` succeeds exactly on an optional sign followed by decimal digits; otherwise ValueError names the text; an unsigned literal is non-negative (its value for every literal `str()` and a sign can write is stated by `PyText.ParseDecimal` and `PyText.ParseSigned`) |
| `PyText.Decimal` | scenario/post_processing/utils/visualization.py:107 | `str(n)` is a run of digits worth `n`, without leading zeros |
| `PyText.ParseSigned` | scenario/post_processing/utils/visualization.py:43 | `int("-" + str(n)) == -n` and `int("+" + str(n)) == n` |
| `PyText.ParseDecimal` | scenario/post_processing/utils/visualization.py:107 | `int(str(n)) == n` |
| `PyText.ZFill` | scenario/post_processing/utils/visualization.py:107 | `zfill(w)` never shortens the text; its length is the larger of the text's length and `w` |
| `PyText.ParseZFill` | scenario/post_processing/utils/visualization.py:107 | zero padding keeps the value of an integer literal |
| `SortedFiles.KeyOf` | scenario/post_processing/utils/visualization.py:39-43 | the key fails only with an empty split token or a part `int()` rejects; its value and its failure on a name of the usual shape are stated by `SortedFiles.KeyOfLiteral` and `SortedFiles.KeyOfNonInteger` |
| `SortedFiles.KeyOfLiteral` | scenario/post_processing/utils/visualization.py:39-43 | for any one-character split token and any dot-free last segment without that token, `<prefix><token><segment><ext>` has suffix `<ext>` and key `int(<segment>)`: the literal's value, signed literals included, or ValueError naming the segment |
| `SortedFiles.KeyOfNonInteger` | scenario/post_processing/utils/visualization.py:39-43 | a name `<prefix>_<segment><ext>` whose last segment `int()` rejects, such as `f_abc.vtk` or `f_.vtk`, gets ValueError naming that segment |
| `SortedFiles.KeyOfDigits` | scenario/post_processing/utils/visualization.py:39-43 | `<prefix>_<digits><ext>` has suffix `<ext>` and key the value of `<digits>`, whatever the prefix holds (the token `_` case of `SortedFiles.KeyOfLiteral`, for unsigned digits) |
| `SortedFiles.KeyOfNumbered` | scenario/post_processing/utils/visualization.py:16-24 | `<prefix>_<n><ext>` is kept under `<ext>` and keyed by `n`, the naming the doc-comment describes |
| `SortedFiles.Kept` | scenario/post_processing/utils/visualization.py:34-36 | every kept name is a listed name whose suffix equals the format, and the filter never lengthens the listing |
| `SortedFiles.KeptCount` | scenario/post_processing/utils/visualization.py:34-36 | the filter keeps every entry whose suffix equals the format, as often as it is listed, and nothing else |
| `SortedFiles.KeptSingle` | scenario/post_processing/utils/visualization.py:35 | a single entry is kept exactly when its suffix equals the format |
| `SortedFiles.KeptConcat` | scenario/post_processing/utils/visualization.py:34-36 | filtering a listing is filtering its parts in turn, so kept entries stay in listing order |
| `SortedFiles.DecorateOk` | scenario/post_processing/utils/visualization.py:39-45 | computing the keys succeeds exactly when every kept name has a key |
| `SortedFiles.DecorateKeys` | scenario/post_processing/utils/visualization.py:39-45 | on success each name is paired, in order, with its own key |
| `SortedFiles.DecorateFirstFailure` | scenario/post_processing/utils/visualization.py:39-45 | on failure the error is that of the first name, in listing order, whose key fails |
| `SortedFiles.Insert` | scenario/post_processing/utils/visualization.py:45 | inserting adds exactly the one entry |
| `SortedFiles.InsertSorted` | scenario/post_processing/utils/visualization.py:45 | inserting into a key-sorted list keeps it sorted |
| `SortedFiles.InsertWithKey` | scenario/post_processing/utils/visualization.py:45 | the inserted entry goes in front of the entries with its own key; other keys are untouched |
| `SortedFiles.SortByKey` | scenario/post_processing/utils/visualization.py:45 | the sort is a permutation of its input |
| `SortedFiles.SortByKeySorted` | scenario/post_processing/utils/visualization.py:45 | the sort's output is non-decreasing by key |
| `SortedFiles.SortByKeyStable` | scenario/post_processing/utils/visualization.py:45 | for every key, the entries with that key appear in input order (stability) |
| `SortedFiles.AscendingStableUnique` | scenario/post_processing/utils/visualization.py:45 | two keyed lists that are both ascending and agree on the order within every key are equal |
| `SortedFiles.GetSortedFiles` | scenario/post_processing/utils/visualization.py:27-28 | a missing directory fails with the directory-not-found error and no list |
| `SortedFiles.SortedFilesFailure` | scenario/post_processing/utils/visualization.py:39-45 | with the directory present, the call fails exactly when some kept entry has no integer key; the error is the first such entry's; no partial list |
| `SortedFiles.SortedFilesPermutation` | scenario/post_processing/utils/visualization.py:34-45 | the result is a permutation of the filtered listing: each name with the format's suffix as often as listed, no other name |
| `SortedFiles.SortedFilesAscending` | scenario/post_processing/utils/visualization.py:39-45 | every returned name has a key, and keys never decrease along the result |
| `SortedFiles.SortedFilesStable` | scenario/post_processing/utils/visualization.py:45 | names with equal keys come out in listing order |
| `SortedFiles.SortedFilesUnique` | scenario/post_processing/utils/visualization.py:45 | any ascending, stable ordering of the filtered listing is the returned one, so any stable sort gives this result |
| `PyText.LexLessDigits` | scenario/post_processing/utils/visualization.py:107 | among equal-length digit runs, a smaller value is alphabetically smaller |
| `Movie.RoundHalfEvenNearest` | scenario/post_processing/utils/visualization.py:104 | `round(n / d)` is within half a step of `n / d`, and even on a tie |
| `Movie.RoundHalfEvenUnique` | scenario/post_processing/utils/visualization.py:104 | no other integer is as near to `n / d` under the ties-to-even rule |
| `Movie.Stride` | scenario/post_processing/utils/visualization.py:104 | computing the stride fails, with ZeroDivisionError, exactly when `fps == 0` |
| `Movie.StrideNearest` | scenario/post_processing/utils/visualization.py:104 | for either sign of `fps`, the stride is within half a step of `60 / fps`, and even on a tie |
| `Movie.StrideUnique` | scenario/post_processing/utils/visualization.py:104 | any integer that is nearest to `60 / fps` under the ties-to-even rule is the stride |
| `Movie.StrideOfCommonRates` | scenario/post_processing/utils/visualization.py:104 | fps 60 gives stride 1, 30 and 24 and 40 give 2, 10 gives 6, 8 gives 8 |
| `Movie.StrideVanishes` | scenario/post_processing/utils/visualization.py:104 | from 120 fps on, and from -120 fps down, the stride is 0 |
| `Movie.SampledPositionsExact` | scenario/post_processing/utils/visualization.py:103-104 | a position is sampled exactly when it is below the file count and a multiple of the stride; positions strictly increase |
| `Movie.SampledPositionsArithmetic` | scenario/post_processing/utils/visualization.py:103-104 | for a stride `s >= 1` the sampled positions are `0, s, 2s, ...` and there are `ceil(n / s)` of them |
| `Movie.SampledPositionsNegative` | scenario/post_processing/utils/visualization.py:104 | a negative stride samples the same positions as its absolute value |
| `Movie.FrameName` | scenario/post_processing/utils/visualization.py:106-107 | the padded index has at least five characters and is never shorter than `str(index)` |
| `Movie.FrameDigits` | scenario/post_processing/utils/visualization.py:107 | the padded index is all digits, at least five of them, and is worth the index |
| `Movie.FrameNameKey` | scenario/post_processing/utils/visualization.py:106-107 | the image name has suffix `.png`, and the sorter's key function reads the index back from it |
| `Movie.FrameNameInjective` | scenario/post_processing/utils/visualization.py:106-107 | distinct indices give distinct image names |
| `Movie.FrameNamesAlphabetical` | scenario/post_processing/utils/visualization.py:106-107 | below 100000, a smaller index gives an alphabetically smaller image name |
| `Movie.Sampled` | scenario/post_processing/utils/visualization.py:103-104 | the loop raises, and only ZeroDivisionError, exactly when there is at least one file and `fps == 0` or the stride is 0; otherwise it samples exactly the positions below the file count that the stride divides |
| `Movie.CollectFrames` | scenario/post_processing/utils/visualization.py:97-117 | the loop yields, for the k-th sampled position p, the image name for p and the snapshot at p; it raises ZeroDivisionError exactly when the files are non-empty and `fps == 0` or the stride is 0 |
| `Movie.CreateMovieFromVtk` | scenario/post_processing/utils/visualization.py:96-117 | a sorting failure is returned before any frame; otherwise the result is the loop's over the sorted `.vtk` files |
| `Movie.EveryFileAtSixty` | scenario/post_processing/utils/visualization.py:104 | at 60 fps every file becomes a frame, in order |
| `Movie.HundredFilesAtTen` | scenario/post_processing/utils/visualization.py:103-104 | 100 files at 10 fps give 17 frames, at positions 0, 6, ..., 96 |
| `Movie.FramesInFileOrder` | scenario/post_processing/utils/visualization.py:103-117 | each image name carries its snapshot's position, and those positions strictly increase along `frames` |
| `Movie.FramesAlphabetical` | scenario/post_processing/utils/visualization.py:106-117 | with at most 100000 files, `frames` is in alphabetical order |

The definitions `PyText.Split`, `PyText.LexLess`, `SortedFiles.Decorate`, `Movie.RoundHalfEven` and `Movie.SampledPositions` have no rows of their own: they are covered by the rows of their lemmas (`PyText.JoinSplit`, `PyText.SplitPartsFree`, `PyText.SplitFirstPart`, `PyText.LexLessDigits`, `SortedFiles.DecorateOk`, `Movie.RoundHalfEvenNearest`, `Movie.SampledPositionsExact`).

## Left out

- An existing path that `os.scandir` cannot list (a plain file, which raises NotADirectoryError, or an unreadable directory, which raises PermissionError) is not modelled: `Some` stands for a listable directory.
- `os.path.exists` and `os.scandir` are not modelled as I/O. The directory is its path plus an optional list of entry names, and a directory entry is modelled by its name. Listing order is whatever that list gives.
- PyText.ParseInt: accepts only an optional `+`/`-` and ASCII digits. Python's `int()` also accepts surrounding whitespace, `_` between digits and non-ASCII decimal digits, and those are not modelled.
- PathNames.Suffix: follows pathlib's rule from before Python 3.14, where a name ending in a dot has no suffix.
- Movie.Stride: replaces the float division `60 / fps` and `round` with exact round-half-to-even on the rational `60 / fps`. For an integer `fps` the two agree, because a tie `k + 0.5` is exact in binary and no other quotient with so small a numerator lies within rounding distance of a half. A non-integer `fps` is not modelled.
- The pyvista calls are left out: `start_xvfb`, `global_theme.background`, `Plotter`, `camera_position`, `read`, `add_mesh`, `screenshot` and `close`. They are external rendering. The model records the snapshot passed to each render in `Rendering.snapshots`, but not a failure raised while reading or rendering a mesh.
- moviepy's `ImageSequenceClip` and `write_videofile` are left out. They are external video encoding.
- `tempfile.TemporaryDirectory` and the `os.path.join` calls are left out. `frames` holds the bare image names; in the source each is prefixed with the temporary directory. `snapshots` holds the directory entry's name; the path the source builds from the output directory and the entry to read the mesh is not modelled.
- SortedFiles.SortByKey: is an insertion sort, not Python's Timsort. `SortedFiles.SortedFilesUnique` shows that every stable sort by the same key gives the same list.
- The text of the exceptions' messages is not modelled; only which exception is raised, and for `IOError` the directory.
