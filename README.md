# cima-etl in Dafny

A model of class `ETL` in `etl.py`, the extract-transform step for the CIMA
infant-movement dataset. The step turns per-subject pose-keypoint CSV files into
a dictionary `cima` from subject ID to `{data, label, fps}` and derives six
joint angles, V1..V6, for every frame.

The model has three parts.

- **`load`** is modelled in `paths.dfy`, `metadata.dfy`, `loading.dfy` and `CimaEtl.Etl.Load`.
  - File discovery keeps only names ending in `.csv`, in walk order, and with `tiny` only the first five.
  - The stem is the last path component up to its first dot.
  - The subject ID is the stem's first 3 characters when it starts with a digit, otherwise its first 7.
  - An empty stem is the IndexError that ends `load`.
  - The metadata join records an ID without a row as missing. It stores a matched ID with its frames, minus the `Unnamed: 0` index column, and the CP label and FPS of the first matching row.
  - A later file with the same ID overwrites the earlier entry.
  - Entries from earlier loads are kept.
- **`create_angles`** is modelled in `geometry.dfy`, `tables.dfy`, `angles.dfy` and `CimaEtl.Etl.CreateAngles`.
  - For each subject in dict insertion order, and for each frame, every angle definition `[a, vertex, c]` builds `vec1 = a - vertex` and `vec2 = c - vertex`.
  - The angle is `|atan2(det, dot)|`.
  - The six lists become the columns V1..V6.
  - A missing keypoint coordinate is the KeyError that ends the loop.
- **`__init__`** is modelled as `CimaEtl.Etl.constructor`. It holds the angle table and the empty `cima`.

Each loop that changes state is an imperative method on class `CimaEtl.Etl`, or a method beside it. Each method is proved equal to a recursive specification function: `LoadAll`, `AugmentAll`, `AngleColumns`, `RowAngles` or `CsvPaths`. The lemmas state properties of those functions.

Python dicts iterate in insertion order, so the class keeps `order: seq<string>` beside `cima`. The invariant `Valid()` says that `order` lists exactly the keys of `cima`, each once.

Inputs from outside are parameters:
- the `os.walk` triples;
- the metadata rows;
- `pd.read_csv`, as a function from path to table;
- `np.math.atan2`, as an uninterpreted function on reals.

## Model

| member | source | states |
|---|---|---|
| Paths.PathJoinShape | etl.py:54 | the joined path starts with the directory, ends with the file name, and has a separator between them when the directory is not empty |
| Paths.IsCsvName | etl.py:53 | a name is collected exactly when it has at least four characters and its last four are ".csv" |
| Paths.ComponentStartSpec | etl.py:64 | the scan stops just after a separator or at the start, and no separator follows it |
| Paths.LastComponentSpec | etl.py:64 | `split(os.sep)[-1]` is a suffix without separators, and is either the whole path or preceded by a separator |
| Paths.DelimiterAtSpec | etl.py:64 | the scan stops at the delimiter or at the end, and no delimiter comes before it |
| Paths.FirstComponentSpec | etl.py:64 | `split(".")[0]` is a prefix without dots, and is either the whole name or followed by a dot |
| Paths.Take | etl.py:65 | `s[:n]` is the prefix of length min(n, len(s)) |
| Paths.SubjectId | etl.py:65 | there is no ID exactly when the stem is empty; otherwise the ID is a prefix of length min(3, len) after a leading digit and min(7, len) otherwise |
| Paths.Select | etl.py:56-57 | with tiny, the files are the prefix of length min(5, n) in discovery order; otherwise they are all the files |
| Paths.CollectCsvFiles | etl.py:51-54 | the nested discovery loops produce exactly the joined CSV paths of the walk, directory by directory and name by name |
| Paths.CsvPathsInMembership | etl.py:52-54 | a path is collected from a directory exactly when one of its names ends in ".csv" and joins with the directory to that path |
| Paths.CsvPathsDirs | etl.py:51-54 | a path is collected from the walk exactly when some walked directory contributes it |
| Paths.CsvPathsMembership | etl.py:51-54 | a path is collected exactly when it joins some walked directory with one of that directory's ".csv" names |
| Paths.CsvPathsAppend | etl.py:51-54 | discovery order: walking more directories only appends paths after those already found |
| Paths.LastComponentOfJoin | etl.py:64 | the last component of a discovered path is its file name, whatever the directory |
| Paths.FirstComponentAt | etl.py:64 | the first component ends at the first delimiter |
| Paths.StemOfJoin | etl.py:64 | the stem of a discovered path is its file name up to the first dot |
| Paths.StemExamples | etl.py:64-65 | "a.b.csv" has stem "a"; ".csv" has the empty stem, which has no ID |
| Paths.SubjectIdIdempotent | etl.py:65 | deriving the ID from an ID gives the same ID |
| Paths.SubjectIdWholeStem | etl.py:65 | the ID is the whole stem exactly when the stem is no longer than 3 (digit first) or 7 characters |
| Tables.WithoutSpec | etl.py:71 | removing the column keeps exactly the other columns, in order and still distinct, and changes nothing when the column is absent |
| Tables.DropColumnSpec | etl.py:71 | `drop(columns=[...], errors="ignore")` removes the column from the list and from every row, keeps every other field, and keeps a well-formed table well-formed |
| Tables.DropAbsentColumn | etl.py:71 | dropping an absent column is not an error and leaves the table as it was |
| Tables.AddColumnSpec | etl.py:93 | row i of the attached column holds entry i; a new name is appended; every other field is kept; well-formedness is kept |
| Tables.AddColumnsShape | etl.py:92-93 | attaching distinct new columns appends exactly those names and keeps the table well-formed |
| Tables.AddColumnsValue | etl.py:92-93 | with distinct names, row i of column names[j] holds cols[j][i], whether or not the name was already a column |
| Tables.AddColumnsColumns | etl.py:92-93 | attaching columns keeps the old columns in front, adds exactly the attached names to the set of columns, and keeps a well-formed table well-formed, even when a name was already a column |
| Tables.AddColumnsKeeps | etl.py:92-93 | every field other than the attached names keeps its presence and value in every row |
| Metadata.FirstMatch | etl.py:66-72 | a returned position is in range and its row has the ID |
| Metadata.FirstMatchSpec | etl.py:66-72 | the selection is empty exactly when no row has the ID; otherwise `iloc[0]` is the first row that has it |
| Metadata.FirstMatchAppend | etl.py:72 | rows after the first match never change which row is used |
| Catalogue.InsertOrder | etl.py:72 | assigning a key keeps the insertion order a duplicate-free list of the keys and never reorders existing keys |
| Geometry.Abs | etl.py:90 | `np.abs` is non-negative and equals x or -x |
| Geometry.Angle | etl.py:90 | the angle is non-negative |
| Geometry.SwapDetDot | etl.py:88-90 | swapping vec1 and vec2 negates the determinant and keeps the dot product |
| Geometry.AngleSwap | etl.py:88-90 | with an atan2 whose magnitude ignores the sign of its first argument, as the real atan2's does, swapping vec1 and vec2 keeps the angle |
| Geometry.AngleEndsSwap | etl.py:85-90 | under the same hypothesis on atan2, exchanging the two outer keypoints of a definition keeps the angle at the vertex |
| Geometry.AbsEvenInFirstAllowsStraightAngle | etl.py:90 | the hypothesis of the swap lemmas is satisfiable by an atan2 with atan2(0, -1) different from 0, so it does not rule out the straight angle pi |
| Geometry.AngleTranslation | etl.py:85-90 | moving all three keypoints by the same offset keeps the angle |
| Geometry.ScaleArguments | etl.py:88-90 | scaling either vector by k scales both atan2 arguments by k |
| Geometry.RightAngleExample | etl.py:85-90 | for any vertex, unit rays up and to the right give abs(atan2(-1, 0)) |
| Geometry.StraightAngleExample | etl.py:85-90 | for any vertex, opposite unit rays give abs(atan2(0, -1)) |
| Angles.AngleTableShape | etl.py:25-32 | the table creates columns V1..V6, all distinct, and every vertex differs from both of its end points |
| Angles.FirstMissingSpec | etl.py:85-87 | nothing is missing exactly when the frame has every column; otherwise the result is the first column it lacks |
| Angles.AngleInSpec | etl.py:84-90 | the angle exists exactly when the frame has all six coordinates; it is then the non-negative angle at the middle keypoint, with `vec1 = p0 - p1` and `vec2 = p2 - p1`; otherwise the error names a required column the frame lacks |
| Angles.RowAngles | etl.py:84-91 | a frame yields one value per definition |
| Angles.RowAnglesSpec | etl.py:84-91 | a frame succeeds exactly when every definition does, and value j is definition j's angle |
| Angles.RowAnglesFailure | etl.py:84-91 | a failing frame reports the error of definition j for some j, and every definition before j succeeds |
| Angles.AngleColumns | etl.py:81-91 | there is one list per definition, each with one entry per frame |
| Angles.AngleColumnsSucceed | etl.py:82-91 | the subject's angles exist exactly when every definition succeeds on every frame |
| Angles.AngleColumnsValues | etl.py:82-91 | entry i of list j is the angle of definition j in frame i, in frame order |
| Angles.AngleColumnsFailure | etl.py:82-91 | failing lists report the error of frame i for some i, and every frame before i succeeds |
| Angles.AngleColumnsPrefixSucceed | etl.py:82-91 | lists that exist come from frames that each succeed |
| Angles.RowAnglesFailurePersists | etl.py:84-91 | once a definition fails, the later definitions do not change the error |
| Angles.AngleColumnsFailurePersists | etl.py:82-91 | once a frame fails, the later frames do not change the error |
| Angles.FrameAngles | etl.py:84-91 | the inner loop over the definitions returns the frame's values, or the error of the frame's first failing definition (by RowAnglesFailure) |
| Angles.SubjectAngles | etl.py:80-91 | the loops over frames and definitions return the per-definition lists, or the error of the first failing frame (by AngleColumnsFailure) |
| Angles.AugmentSubject | etl.py:80-94 | augmenting keeps the subject's label, frame rate and number of frames |
| Angles.AugmentSubjectSucceeds | etl.py:80-94 | a subject is augmented exactly when every definition succeeds on every frame |
| Angles.AugmentSubjectSpec | etl.py:80-94 | with distinct definition names, row i holds definition j's angle in frame i under definition j's name, overwriting a column of that name if there was one |
| Angles.AugmentSubjectKeeps | etl.py:92-93 | every field of every frame other than the definitions' names keeps its presence and value |
| Angles.AugmentSubjectShape | etl.py:92-93 | a well-formed subject stays well-formed, keeps its old columns in front and gains exactly the definitions' names as columns; fresh distinct names are appended in order |
| Angles.AugmentSubjectColumns | etl.py:92-94 | with the angle table, a well-formed subject stays well-formed and gains exactly the columns V1..V6, overwriting any it had; without them, V1..V6 are appended at the end |
| Angles.AugmentStepKeepsMetadata | etl.py:92-94 | the per-subject step never changes a label, frame rate or frame count |
| Angles.AugmentAll | etl.py:79-94 | create_angles keeps the set of cima keys |
| Angles.AugmentAllFailurePersists | etl.py:79-94 | once a subject fails, the later subjects are not processed |
| Angles.AugmentAllKeepsMetadata | etl.py:79-94 | no subject is added or removed, and each keeps its label, frame rate and frame count |
| Angles.AugmentAllUnlisted | etl.py:79-94 | subjects that are not in the iteration order are untouched |
| Angles.AugmentAllComplete | etl.py:79-94 | when the loop completes, every subject holds the augmentation of its original record |
| Angles.AugmentAllColumns | etl.py:79-94 | after a complete create_angles, every subject is well-formed, keeps its columns in front and its frame count, and has exactly V1..V6 added to its columns |
| Angles.AugmentAllStopsAt | etl.py:79-94 | a stopped loop stopped at a key where the step failed on the state the earlier keys left |
| Angles.AugmentAllPrefixUntouched | etl.py:79-94 | over distinct keys, the keys after the first j are untouched by the loop over the first j |
| Angles.AugmentAllPrefixComplete | etl.py:79-94 | over distinct keys, a completed loop over the first j keys holds the step's result for each of them |
| Angles.AugmentAllStopped | etl.py:79-94 | when the loop stops, it stops at a subject j whose augmentation fails with that error; every earlier subject holds its augmentation, subject j and all later ones are unchanged, and the state is exactly the loop's over the subjects before j |
| Loading.LoadFile | etl.py:64-72 | a file fails exactly when its stem is empty |
| Loading.LoadFileEffect | etl.py:66-72 | an unmatched ID is appended to the missing list and nothing else changes; a matched ID gets the first matching row's CP and FPS with the frames minus the index column; every other key keeps its entry |
| Loading.LoadFileIndexed | etl.py:72 | storing a subject keeps the key order a duplicate-free list of exactly the keys, and earlier keys keep their place |
| Loading.LoadAllKeys | etl.py:63-72 | keys from before the load persist, and every new key is an ID with a metadata row |
| Loading.LoadAllMissing | etl.py:63-69 | the missing list only grows, and each entry added is an ID with no metadata row |
| Loading.LoadAllIndexed | etl.py:63-72 | the key order stays a duplicate-free list of exactly cima's keys, and earlier keys keep their place |
| Loading.LoadAllUntouched | etl.py:63-72 | a key that no file derives keeps its entry, or stays absent |
| Loading.LoadAllLastWins | etl.py:63-72 | after a complete load, a matched ID holds the entry built from the last file that derives it and from the first matching metadata row |
| Loading.LoadAllFailurePersists | etl.py:63-65 | once a file raises, the later files are not processed |
| Loading.LoadAllCompletes | etl.py:63-65 | load completes exactly when every selected file has a non-empty stem |
| Loading.LoadAllStops | etl.py:63-72 | a failed load stopped at the first file with an empty stem and keeps exactly what the earlier files stored |
| CimaEtl.Etl.constructor | etl.py:22-32 | the object starts with an empty cima and the angle table V1..V6 |
| CimaEtl.Etl.LoadOne | etl.py:63-72 | one loop iteration performs exactly the file step: the IndexError, the missing ID, or the stored subject |
| CimaEtl.Etl.Load | etl.py:42-72 | the method leaves exactly the state and error of the loading loop over the selected CSV files, starting from the existing cima, and keeps the key order valid |
| CimaEtl.Etl.AugmentOne | etl.py:80-94 | one loop iteration replaces the subject by its augmentation, or leaves cima unchanged and reports the missing column |
| CimaEtl.Etl.CreateAngles | etl.py:74-94 | the method leaves exactly the cima and error of the create_angles loop in insertion order; the order and metadata are unchanged |

## Left out

- Filesystem and pandas I/O.
  - `os.walk` is an input sequence of `(root, dirs, files)` triples.
  - The choice of the `data` sub-directory (etl.py:45-49) is not modelled.
  - `pd.read_csv` of a data file is a function parameter from path to table.
  - `load_metadata` (etl.py:37-39) becomes the metadata rows passed to `Load`.
  - `save` (etl.py:96-107) is not modelled.
- `print` and `tqdm` progress output are left out. They do not affect state.
- Floating point.
  - `np.math.atan2` is an uninterpreted function on reals. Only the swap lemmas assume anything about it: that |atan2(-y, x)| == |atan2(y, x)|, which the real atan2 satisfies, pi included.
  - Reals are exact: rounding, NaN and infinities are not modelled.
  - The range of the angle, [0, pi], is not proved.
- `unit_vector` and `get_angle` (etl.py:10-17) are not modelled. Nothing in `ETL` calls them.
- `pd.set_option` and the `__main__` driver (etl.py:7-8, 110-114) are not modelled.
- `get_cima` (etl.py:34-35) only returns the dictionary. The model's `cima` field is read directly.
- Paths.IsDigit: `str.isnumeric` also accepts non-ASCII numeric characters (superscripts, fractions, other scripts' digits). The model accepts only '0'..'9'.
- Paths.Sep: only the POSIX separator '/' is modelled. On Windows, `os.sep` is a backslash.
- Metadata.FirstMatch: IDs are compared as strings. If pandas reads the ID column as numbers, the equality in the source never holds and every file becomes missing. This is not modelled.
- Tables.AddColumn: `pd.Series` aligns on the frame's index. The model assumes the default 0..n-1 index that `read_csv` produces, so value i lands in row i. Column dtypes are not modelled: every value is a real, and the label is an integer.
- CimaEtl.Etl.Load: every table that `read` returns must be well-formed, meaning its column list has no duplicates and names exactly the fields of each row. A DataFrame always has this shape. With it, the object invariant also says that every stored subject's frames are well-formed.
- CimaEtl.Etl.Load: `missing_metadata` is a local list that the source discards. The model returns it so that its contents can be stated. The IndexError is returned as an error value rather than raised.
- CimaEtl.Etl.CreateAngles: the KeyError is returned as an error value. The in-place change to the shared DataFrame object is modelled as replacing the subject in `cima`, so aliasing of that DataFrame elsewhere is not captured.
- Angles.FrameAngles: the source appends each angle to its list as soon as it is computed. The model collects a frame's six values and then appends them together. The lists are local and are dropped when a KeyError escapes, so the difference cannot be observed.
