# Drogon HCS acquisition parser, modelled in Dafny

This project models the acquisition-parsing core of the Drogon high-content-screening converter.
The core turns three inputs into one tiled image per imaged well:
- the TIFF planes of an acquisition's `TIF_OVR_MIP` folder;
- a YAML channel map;
- a CSV cell-line layout.

The core exists in two versions:
- `_parser.py`: the YAML file is named by the caller; the layout is read with a strict `zip`; tile extents are scaled by the pixel size; images carry `cell_line` and `time_point` attributes.
- `parser.py`: the one `*.yml`/`*.yaml` file of the folder is used; the layout is read with a plain `zip`; extents are in pixels with a fixed 0.325 µm pixel size.

Both versions are modelled. Where they differ, the difference is a parameter:
- `ZipMode` (`Strict` or `Truncating`) for the layout;
- `Variant` (`Physical` or `Pixel`) for the assembler.

Modules, one file each:
- `Results`: `Option`, `Result`, and one `Error` constructor per exception the core raises.
- `Text`: the Python built-ins the core relies on, with their Python meaning:
  - `int()` and `str()` on integers, with the round trip between them;
  - `str.split("_")` and `PurePath.stem`;
  - code-point string order, and `list.sort()` as a sort function proved sorted, a permutation and unique.
- `CellLineLayout`: `load_cell_line_layout`.
  - It is a nested-loop method over the table (row labels plus columns of header and cells), filling an insertion-ordered list of `(well, entry)` pairs.
  - The method is proved equal to a recursive reference definition.
  - Lemmas give the column suffix rule, the meaning of the result (one entry per cell, in column-major order, failing exactly on a repeated well), and the failure cases.
- `TiffFiles`: `find_tiff_files`, over every entry name of the `TIF_OVR_MIP` folder; `glob("*.tif")` keeps the names ending in `.tif`.
  - The append loop and the per-group sort loop are methods proved equal to a reference definition.
  - Lemmas cover the empty-listing error and the first malformed name.
  - They show that every file is in the group of its well and only there, and that every group is non-empty and the sorted permutation of its well's files.
- `TiffLoading`: class `TiffLoader`.
  - Its path list is a constant, and a factory rejects an empty list.
  - `tile_shape` is modelled both as written and corrected (see Findings).
  - `load()` is modelled both as written and over the corrected `tile_shape`.
  - `Load` allocates a zeroed `array5<int>` of the tile shape and writes plane `i` into `[0, i, 0, :, :]` with nested loops. Its contract ties it to the reference list of decoded planes.
- `ChannelsMeta`: both versions of `find_channels_meta`, over the folder's entry names.
- `Assembler`: both versions of `parse_drogon_metadata`.
  - The loop method builds images with real `TiffLoader` objects and is proved equal, loader by loader, to a reference definition on values.
  - Lemmas show the images cover exactly the layout wells that have files, in layout order and without repeats.
  - Each image has one tile at the origin, a channel extent equal to its file count and loader plane count, the YAML channel names in order, and the version's attributes.
  - Once the inputs are read and every layout header is a non-negative integer, the only failure left in the corrected program is a first file that does not decode. A negative header such as `-3` is stored as the column `0-3`, which `int()` then rejects when the image is built. The program as written also fails on every well whose first file has an unusable TIFF header but decodes (see Findings).

Reading files is done by functions passed in as parameters:
- `YamlReader` for `yaml.load`;
- `HeaderReader` for tifffile's series shape;
- `Decoder` for `tifffile.imread(path)[0]`.

Directory contents are passed in as lists of entry names, in listing order.

## Model

| member | source | states |
|---|---|---|
| `Text.ParseInt` | src/fractal_hcs_drogon_converters/_parser.py:52 | `int()` accepts exactly an optional sign followed by at least one ASCII digit; a negative result comes from a leading `-` |
| `Text.IntToString` | src/fractal_hcs_drogon_converters/_parser.py:54 | `str(i)` starts with `-` exactly when `i` is negative, followed by decimal digits with no leading zero other than `"0"` itself |
| `Text.IntToStringRoundTrip` | src/fractal_hcs_drogon_converters/_parser.py:52-54 | `int(str(i)) == i` for every integer `i`, so a column re-rendered with `str` is read back unchanged |
| `Text.SplitMeaning` | src/fractal_hcs_drogon_converters/_parser.py:77 | the pieces of `split("_")` contain no `_` and joined with `_` give back the string; there is one piece exactly when the string has no `_` |
| `Text.SplitAtSeparator` | src/fractal_hcs_drogon_converters/_parser.py:77 | `split("_")` of `a + "_" + b` is the split of `a` followed by the split of `b` |
| `Text.Stem` | src/fractal_hcs_drogon_converters/_parser.py:77 | the stem is a prefix of the name; it is the name cut at its last dot whenever that dot is neither the first nor the last character, and the whole name otherwise |
| `Text.StemOfTif` | src/fractal_hcs_drogon_converters/_parser.py:77 | the stem of `base + ".tif"` is `base` for every non-empty `base`, dots included |
| `Text.MatchingMembers` | src/fractal_hcs_drogon_converters/_parser.py:70 | `glob("*" + suffix)` over a listing finds exactly the listed names ending in the suffix |
| `Text.SortNames` | src/fractal_hcs_drogon_converters/_parser.py:83 | the sorted list is in ascending code-point order and is a permutation of the input |
| `Text.SortedPermutationUnique` | src/fractal_hcs_drogon_converters/_parser.py:82-84 | two sorted permutations of one list are equal, so a group's sorted order is fully determined |
| `CellLineLayout.ColumnStep` | src/fractal_hcs_drogon_converters/_parser.py:52-54 | the column update fails with the bad-column error exactly when `int()` rejects the column; for a non-negative column the result has at least two characters and `int()` reads the same number from it |
| `CellLineLayout.PadColumn` | src/fractal_hcs_drogon_converters/_parser.py:52-54 | the parse-then-pad statements compute exactly the column update |
| `CellLineLayout.ColumnSuffixRule` | src/fractal_hcs_drogon_converters/_parser.py:52-55 | a header 0..9 becomes `"0"` + digit; a header of 10 or more keeps its text; a negative one becomes `"0-"` + digits |
| `CellLineLayout.PaddedStable` | src/fractal_hcs_drogon_converters/_parser.py:52-54 | re-applying the per-row column update to a padded column leaves it unchanged, and `int()` of it is `int()` of the header |
| `CellLineLayout.NegativeHeaderFailsOnSecondRow` | src/fractal_hcs_drogon_converters/_parser.py:52-54 | for a negative header the update succeeds once but fails on its own result, so a second row raises `ValueError` |
| `CellLineLayout.LoadCellLineLayout` | src/fractal_hcs_drogon_converters/_parser.py:43-66 | the nested loops return exactly the reference layout or its error, for both zip modes |
| `CellLineLayout.InsertColumnRows` | src/fractal_hcs_drogon_converters/_parser.py:49-65 | the inner loop over one column's rows returns exactly the reference result for that column: the re-padded wells added in row order, or the first bad-column, duplicate-well or zip-length error |
| `CellLineLayout.LayoutOf` | src/fractal_hcs_drogon_converters/_parser.py:47-66 | a built layout has no well twice, and every key is its entry's row followed by its entry's column |
| `CellLineLayout.LayoutOfMeaning` | src/fractal_hcs_drogon_converters/_parser.py:47-65 | for non-negative headers the table succeeds iff the derived wells are distinct (and, when strict, every column has one cell per row); the layout is then every cell in column-major order. A failure on a full table is the duplicate-well error for the first cell, in column-major order, whose well was already derived |
| `CellLineLayout.FirstRepeatUnique` | src/fractal_hcs_drogon_converters/_parser.py:56-60 | only one cell can be the first repeated well, so the duplicate-well error names a well fixed by the table |
| `CellLineLayout.InvalidHeaderRejected` | src/fractal_hcs_drogon_converters/_parser.py:52 | a header `int()` rejects, with at least one row and one cell, raises the bad-column error for that header once the columns before it have been added |
| `CellLineLayout.ZipModesAgreeOnRectangular` | src/fractal_hcs_drogon_converters/parser.py:39-41 | on a table whose columns all have one cell per row, the plain and strict zip give the same result |
| `CellLineLayout.LayoutColumnMajor` | src/fractal_hcs_drogon_converters/_parser.py:48-51 | on an R-row table, entry `k * R + i` is row `i` of column `k` |
| `CellLineLayout.RepeatedColumnIsDuplicate` | src/fractal_hcs_drogon_converters/_parser.py:56-60 | headers "3" and "03" in one table derive "A03" twice and raise the duplicate-well error |
| `CellLineLayout.LayoutColumnsParse` | src/fractal_hcs_drogon_converters/_parser.py:161 | every stored column text of a layout built from non-negative headers is read by `int()` as a non-negative number |
| `CellLineLayout.LayoutColumnRoundTrip` | src/fractal_hcs_drogon_converters/parser.py:144-149 | the plate path of row `i`, column `k` gets `int()` of the header of column `k` and the row label `i` |
| `TiffFiles.WellKey` | src/fractal_hcs_drogon_converters/_parser.py:77 | a name has a well key exactly when its stem contains `_`, and the key itself contains no `_`; `TiffFiles.WellKeyIsToken` and `TiffFiles.WellKeyOfStem` say which token it is |
| `TiffFiles.TiffGroupsOf` | src/fractal_hcs_drogon_converters/_parser.py:69-84 | a listing with no `.tif` name raises the no-TIFF error; otherwise grouping succeeds iff every `.tif` name has a well key |
| `TiffFiles.FindTiffFiles` | src/fractal_hcs_drogon_converters/_parser.py:69-84 | the glob, append and sort loops return exactly the reference grouping or its error |
| `TiffFiles.AppendToGroup` | src/fractal_hcs_drogon_converters/_parser.py:78-80 | the well's group becomes its earlier content, empty for a new well, followed by the path |
| `TiffFiles.SortEachGroup` | src/fractal_hcs_drogon_converters/_parser.py:82-84 | every group is replaced by its sorted version, and the set of wells is unchanged |
| `TiffFiles.TiffGroupsFirstMalformed` | src/fractal_hcs_drogon_converters/_parser.py:76-77 | a failed grouping reports the first `.tif` name, in listing order, whose stem has no second-to-last token |
| `TiffFiles.TiffGroupsOnlyOwnWell` | src/fractal_hcs_drogon_converters/_parser.py:70-80 | a group holds only listed `.tif` names whose well key is that group's well |
| `TiffFiles.TiffGroupsEveryName` | src/fractal_hcs_drogon_converters/_parser.py:70-80 | every listed `.tif` name has a well key and is in that well's group |
| `TiffFiles.TiffGroupsSorted` | src/fractal_hcs_drogon_converters/_parser.py:82-84 | every group is non-empty, sorted, and a permutation of the `.tif` names carrying its well key |
| `TiffFiles.WellKeyOfConventionalName` | src/fractal_hcs_drogon_converters/_parser.py:77 | a name `prefix_WELL_INDEX.tif` with no `_` in WELL or INDEX has well key WELL, whatever the prefix holds |
| `TiffFiles.WellKeyIsToken` | src/fractal_hcs_drogon_converters/_parser.py:77 | a well key is the second-to-last `_` token of the stem: the stem is `KEY_LAST` or `PREFIX_KEY_LAST` with no `_` in KEY or LAST |
| `TiffFiles.WellKeyOfStem` | src/fractal_hcs_drogon_converters/_parser.py:77 | conversely, a stem `KEY_LAST` or `PREFIX_KEY_LAST` with no `_` in KEY or LAST has well key KEY |
| `TiffFiles.DottedPrefixKey` | src/fractal_hcs_drogon_converters/_parser.py:77 | `plate.v2_B03_1.tif` has well key `B03`: a dot before `.tif` does not matter |
| `TiffFiles.GroupFromContents` | src/fractal_hcs_drogon_converters/parser.py:64-69 | the append loop, for any key function, files each name under its key, in listing order within a group |
| `TiffFiles.GlobIgnoresOtherFiles` | src/fractal_hcs_drogon_converters/_parser.py:70 | a `notes.txt` beside `p_B03_1.tif` is not grouped: the result is the one group `B03` |
| `TiffLoading.TileShapeAsWritten` | src/fractal_hcs_drogon_converters/_parser.py:104-112 | with a usable header the shape has five entries, the second being the number of paths; otherwise, when the first file decodes, it has two; it fails, naming the first file, iff neither the header nor the decoding works |
| `TiffLoading.TileShape` | src/fractal_hcs_drogon_converters/_parser.py:104-112 | the corrected shape is `(1, k, 1, H, W)` for `k` paths. H and W come from a usable header, else from the decoded first plane. It fails, naming the first file, iff neither works |
| `TiffLoading.TileShapeAgreesOnHeaderPath` | src/fractal_hcs_drogon_converters/_parser.py:107-110 | with a usable header, the source's and the corrected `tile_shape` are equal |
| `TiffLoading.TileShapeExtendsFallback` | src/fractal_hcs_drogon_converters/_parser.py:111-112 | on the fallback path, the corrected shape is the source's shape with `(1, k, 1)` in front |
| `TiffLoading.FallbackShapeIsAPair` | src/fractal_hcs_drogon_converters/parser.py:100-101 | an unreadable header and a 2 x 3 decoded plane give the pair `(2, 3)` as written, and `(1, 1, 1, 2, 3)` when corrected |
| `TiffLoading.LoadAsWrittenMeaning` | src/fractal_hcs_drogon_converters/_parser.py:123-127 | the source's `load()` equals the corrected one when the first file does not decode or its header is usable; with an unusable header and a decodable first file it always fails at the five-index write |
| `TiffLoading.TiffLoader.constructor` | src/fractal_hcs_drogon_converters/_parser.py:90-94 | the loader keeps the given non-empty path list |
| `TiffLoading.NewTiffLoader` | src/fractal_hcs_drogon_converters/parser.py:79-83 | the loader is built iff the list is non-empty, else the no-paths `ValueError` |
| `TiffLoading.TiffLoader.Load` | src/fractal_hcs_drogon_converters/_parser.py:123-132 | load fails with exactly the reference error. Otherwise it returns a new array of the corrected tile shape whose slot `[0, i, 0, :, :]` holds the decoded plane of path `i` |
| `TiffLoading.WritePlane` | src/fractal_hcs_drogon_converters/_parser.py:127-131 | the slice assignment sets slot `i` to the plane and leaves every other slot unchanged, so slots `0..i` then hold the planes read so far |
| `TiffLoading.PlanesFromMeaning` | src/fractal_hcs_drogon_converters/_parser.py:129-131 | the planes load iff every file decodes to a plane of the slot's size; plane `i` is then file `i`'s decoding |
| `TiffLoading.PlanesFromFirstFailure` | src/fractal_hcs_drogon_converters/_parser.py:96-102 | a failed load names the first file that does not decode (decode error) or does not fit (shape error) |
| `TiffLoading.LoadedPlanesMeaning` | src/fractal_hcs_drogon_converters/parser.py:112-121 | once the first file decodes, load gives one plane per path, equal to that path's decoding, iff all fit the shape's (H, W) |
| `ChannelsMeta.ChannelNames` | src/fractal_hcs_drogon_converters/_parser.py:164 | the channel names are the map's values, in document order, one per entry |
| `ChannelsMeta.ChannelsMetaNamed` | src/fractal_hcs_drogon_converters/_parser.py:11-40 | the missing-file error exactly when the named file is not in the folder; success exactly when it is there and readable, with what the reader makes of it |
| `ChannelsMeta.ChannelsMetaGlob` | src/fractal_hcs_drogon_converters/parser.py:12-25 | the not-found error exactly when the folder has no YAML entry, the multiple-files error exactly when it has more than one |
| `ChannelsMeta.CandidatesCount` | src/fractal_hcs_drogon_converters/parser.py:14-16 | the two globs together find each YAML entry of the folder once |
| `ChannelsMeta.ChannelsMetaGlobMeaning` | src/fractal_hcs_drogon_converters/parser.py:14-30 | for exactly one YAML entry, that file is read |
| `ChannelsMeta.ChannelsMetaVersionsAgree` | src/fractal_hcs_drogon_converters/parser.py:12-30 | when the named file is the folder's only YAML file, both versions give the same result |
| `Assembler.ImageFor` | src/fractal_hcs_drogon_converters/_parser.py:155-177 | checks, in order: an empty file list, the column `int()`, the corrected tile shape. The image has its well's name, the entry's row and `int()` column, the channel names, one origin tile over its files with `c` = file count and `z` = `t` = 1 |
| `Assembler.ImageForExtents` | src/fractal_hcs_drogon_converters/_parser.py:165-175 | the `_parser.py` version attaches `cell_line` and `time_point` and scales the extents by the pixel size in real space; the `parser.py` version keeps pixel extents, the 0.325 pixel size and pixel space |
| `Assembler.ImageForAsWrittenMeaning` | src/fractal_hcs_drogon_converters/_parser.py:170 | the source's loop body equals the corrected one unless the first file's header is unusable but the file decodes; there the source raises at the five-name unpacking while the corrected body gives an image |
| `Assembler.FallbackBreaksLoopBody` | src/fractal_hcs_drogon_converters/parser.py:152 | a well with one 2 x 3 plane and an unreadable header: the source raises at the unpacking, the corrected body gives an extent of 3 x 2 with one channel |
| `Assembler.ImagesFrom` | src/fractal_hcs_drogon_converters/_parser.py:149-179 | never more images than layout entries; each image is for a well with files, has one tile whose loader holds exactly that well's group, and has the YAML channel names |
| `Assembler.DrogonMetadata` | src/fractal_hcs_drogon_converters/_parser.py:144-180 | a channel error comes first, then a grouping error; a result means all three inputs were read and every image is built from the groups and the channel map |
| `Assembler.AssembleImages` | src/fractal_hcs_drogon_converters/_parser.py:149-180 | the loop returns the reference images, or the reference error, with each loader holding the reference path list |
| `Assembler.ParseDrogonMetadata` | src/fractal_hcs_drogon_converters/parser.py:124-162 | the channels, grouping, layout and loop steps, in that order, give exactly the reference result |
| `Assembler.JoinedMembers` | src/fractal_hcs_drogon_converters/_parser.py:150-153 | the wells kept are exactly the layout entries whose well has files, as a subsequence of the layout |
| `Assembler.JoinedDistinct` | src/fractal_hcs_drogon_converters/parser.py:136-139 | distinct layout wells stay distinct after wells without files are skipped |
| `Assembler.ImagesFromJoined` | src/fractal_hcs_drogon_converters/parser.py:136-161 | the loop succeeds iff each kept entry gives an image; image `k` is then kept entry `k`'s image |
| `Assembler.TileChannelsArePlanes` | src/fractal_hcs_drogon_converters/_parser.py:170-174 | a tile's channel extent equals the number of planes its loader loads |
| `Assembler.TimePointRoundTrip` | src/fractal_hcs_drogon_converters/_parser.py:167 | the `time_point` attribute is read back by `int()` as the time point |
| `Assembler.ImagesFromFailsOnlyOnShape` | src/fractal_hcs_drogon_converters/_parser.py:155-170 | with non-empty groups and `int()`-readable columns, the loop fails only because a first file does not decode |
| `Assembler.MetadataFailsOnlyOnShape` | src/fractal_hcs_drogon_converters/_parser.py:144-170 | with non-negative headers, once channels, groups and layout are read, the only error left is a decode failure |
| `Assembler.MetadataImages` | src/fractal_hcs_drogon_converters/_parser.py:144-180 | one image per layout well with files, in layout order, no well twice. Each has that well's group of files as its loader, channel extent equal to their count, and the YAML channel names |

## Left out

- YAML, CSV and TIFF decoding, globbing and `Path.exists` are foreign library calls and I/O. They are passed in as entry-name lists and reader functions (`YamlReader`, `HeaderReader`, `Decoder`).
- Files are identified by their names within one directory. Sorting `Path` objects of one directory is modelled as sorting their names by code point.
- The named YAML file is taken as an entry name of the acquisition folder. A sub-path, or a directory of that name, is not modelled.
- The YAML reader is taken to give a mapping of strings, or nothing. When it gives nothing, the model fails at once with the unreadable-YAML error, before the TIFF folder and the layout are read. The source returns whatever `yaml.load` produced. A mapping with non-string values then passes through as channel names. A document that is not a mapping fails at `.values()` (_parser.py:164) only when some layout well has files, and only after the TIFF and layout steps. With no such well the source returns `[]`.
- `pandas.read_csv` and `set_index` are not modelled: the table arrives already split into row labels and columns.
  - Labels and cells are strings.
  - NaN cells, non-string labels and pandas' renaming of repeated headers (`3.1`) are not covered.
- `int()` is modelled for an optional sign followed by ASCII digits. Surrounding whitespace, `_` digit separators and non-ASCII digits are not modelled.
- The `dtype` property (src/fractal_hcs_drogon_converters/_parser.py:114-121) and the array's dtype are left out. Pixels are unbounded integers, with no casting or overflow.
- numpy broadcasting in the slot assignment is not modelled. A plane must have exactly the slot's (H, W); any other plane is reported as a shape mismatch.
- `tifffile.imread(path)[0]` is taken to be the first 2-D page. For a single-page file, where `[0]` selects a row, this differs and is not modelled.
- The exceptions that send `tile_shape` to its fallback are modelled as a header reader returning nothing, or a shape with fewer than three dimensions.
- The pixel-size multiplication uses exact reals, without floating-point rounding.
- The `fractal_converters_tools` and `ngio` types are plain records. The validation in their constructors and in `add_tile` is not modelled.
  - The default tile space of the `_parser.py` version is assumed to be real (micrometre) space.
  - The default attributes of the `parser.py` version are assumed to be empty.
- `parse_drogon_metadata`'s default arguments are not modelled: `acquisition_id=0`, `plate_name="test"`, `pixel_size_um=0.325` and `time_point=0` (_parser.py:139-142, parser.py:127-128). `Config` and `Variant` make the caller pass every value.
- `TiffLoading.LoadedPlanesMeaning`: describes the load over the corrected `tile_shape`. With an unusable header and a decodable first file the source's `load()` always fails (`TiffLoading.LoadAsWrittenMeaning`); with a usable header the two loads are equal.
- `Assembler.ImagesFromJoined`: relates the loop to the corrected loop body. The source's body also fails on an unusable header whose first file decodes (`Assembler.ImageForAsWrittenMeaning`).
- Directory listing order is an input. The order of the `tiff_paths` dict is never observed, so it is a map.
- `pandas` gives every column the index's length, so the strict `zip` never raises on a real table and the zip-length error cannot come from the source. `CellLineLayout.ZipModesAgreeOnRectangular` shows that the two zip modes then agree.
- `TiffLoading.TiffLoader.Load`: uses the corrected `tile_shape`. The source's `load()` also fails whenever the first file's header is unusable and the file decodes; `TiffLoading.LoadAsWrittenMeaning` states that case.
- `Assembler.ImageFor`: uses the corrected `tile_shape`. The source also raises at the five-name unpacking for every well whose first file has an unusable header but decodes; `Assembler.ImageForAsWrittenMeaning` states that case.
- `Assembler.ImagesFrom`: builds images with the corrected `ImageFor`, so it does not fail on an unusable header as the source does.
- `Assembler.AssembleImages`: uses the corrected `tile_shape`, as `Assembler.ImageFor` does.
- `Assembler.DrogonMetadata`: uses the corrected `tile_shape`, as `Assembler.ImageFor` does.
- `Assembler.ParseDrogonMetadata`: uses the corrected `tile_shape`, as `Assembler.ImageFor` does.
- `Assembler.ImagesFromFailsOnlyOnShape`: holds for the corrected program; the source also fails with the unpacking `ValueError` on an unusable header.
- `Assembler.MetadataFailsOnlyOnShape`: holds for the corrected program; the source also fails with the unpacking `ValueError` on an unusable header.
- `TiffLoading.TiffLoader.Load`: the zero fill is not stated separately, because a successful load overwrites every element and a failed one returns no array.

## Findings

| source | as written | input that shows it | evidently intended | confidence | as-written member | corrected member |
|---|---|---|---|---|---|---|
| src/fractal_hcs_drogon_converters/_parser.py:111-112 (also parser.py:100-101) | when header inspection fails, `tile_shape` returns `self._open_tiff(path).shape`, the 2-D shape `(H, W)` of the decoded plane | first file's header unreadable and the file decodes to a 2 x 3 plane: the shape is `(2, 3)`, which the five-name unpacking at _parser.py:170 and the `[0, 0, 0, :, :]` write at _parser.py:127 cannot use; `Assembler.FallbackBreaksLoopBody` and `TiffLoading.LoadAsWrittenMeaning` show both failing | the 5-tuple `(1, len(paths), 1, H, W)`, as on the header path and as the return annotation says | high; not executed | `TiffLoading.FallbackShapeIsAPair` | `TiffLoading.TileShape` |
