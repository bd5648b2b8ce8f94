# BCCD annotation extractor

A Dafny model of `read_data.preprocess_bccd_dataset`, the function that turns
the Pascal-VOC XML annotation files of the BCCD blood-cell dataset into one
table. The table has one row per labelled `object` element, and its columns
are `filename, cell_type, xmin, xmax, ymin, ymax`.

The model has five modules:

- `Wrappers` (wrappers.dfy): `Option` and `Result`.
- `PyStrings` (py_strings.dfy): Python's `str.split` with a one-character
  separator, and its inverse `str.join`. The image name is taken literally as
  `path.split('/')[-1].split('.')[0] + '.jpg'`.
- `PyInt` (py_int.dfy): Python's `int(text)`. It skips surrounding
  whitespace, then accepts an optional sign and decimal digits. Its inverse is
  `str(n)`, with the round trip `int(str(n)) == n`.
- `ElementTree` (element_tree.dfy): the part of `xml.etree.ElementTree` the
  code uses, over an already-parsed tree:
  - `Element.iter(tag)`: a preorder walk that keeps the matching elements;
  - `Element.find(path)`: the first match of `iterfind(path)`, for paths of
    plain tags;
  - `Element.text`: an `Option`, because an empty element has no text.
- `ReadBccdDataset` (read_bccd_dataset.dfy): the extractor itself.
  - `Extract` is the pure specification. It gives the table, or the
    exception that aborts the call.
  - `PreprocessBccdDataset` is the imperative double loop over files and
    `object` elements. It appends rows to `df` and counts them in `cnt`, and
    it is proved equal to `Extract`.
  - Writing rows back as annotation elements (`AnnotationElem`) is the
    inverse of extraction. Reading those files back yields exactly the rows
    written, grouped file by file in order.

Python exceptions become `Error` values:

| Python | `Error` value |
|---|---|
| `ET.parse` on a missing file | `FileNotFound` |
| `ET.ParseError` | `XmlParseError` |
| `AttributeError` on `None.text` | `NoSuchElement` |
| `TypeError` from `int(None)` | `NoText` |
| `ValueError` from `int(text)` | `NotAnInteger` |

The first exception raised ends the whole call, and no table is returned.

Parsing XML text is outside the model. `ET.parse` is the parameter
`read: string -> Document`, which gives a parsed tree, `Missing` or
`Unparsable` for each path. The list `self.annotations` is the parameter
`annotations`.

The image name keeps the base name only up to its *first* `.`, so
`a/b.c.xml` gives `b.jpg`, not `b.c.jpg`. `ImageNameOf` states this for every
directory depth and every suffix that starts with a dot.

## Model

| member | source | states |
|---|---|---|
| PyStrings.Split | modules/read_bccd_dataset.py:31-32 | `str.split(sep)` always returns at least one piece |
| PyStrings.SplitPiecesWithoutSep | modules/read_bccd_dataset.py:31-32 | no piece of `s.split(sep)` contains `sep` |
| PyStrings.SplitJoin | modules/read_bccd_dataset.py:31-32 | `sep.join(s.split(sep)) == s`: splitting loses nothing |
| PyStrings.SplitCount | modules/read_bccd_dataset.py:31-32 | there is one more piece than there are occurrences of `sep` in `s` |
| PyStrings.SplitWithoutSep | modules/read_bccd_dataset.py:31-32 | a string without `sep` splits into itself alone |
| PyStrings.SplitAtSep | modules/read_bccd_dataset.py:31-32 | `(a + sep + b).split(sep)` is `a.split(sep) + b.split(sep)` |
| PyStrings.SplitFirstPiece | modules/read_bccd_dataset.py:32 | `split(sep)[0]` is the prefix before the first `sep`, or the whole string |
| PyStrings.SplitLastPiece | modules/read_bccd_dataset.py:31 | `split(sep)[-1]` is the suffix after the last `sep`, or the whole string |
| PyStrings.SplitPieces | modules/read_bccd_dataset.py:31-32 | exactly one piece iff `sep` does not occur, and then that piece is the string |
| PyInt.TrimStart | modules/read_bccd_dataset.py:37-40 | the leading whitespace `int()` skips is removed: the result is a suffix of the input that does not start with such whitespace |
| PyInt.TrimEnd | modules/read_bccd_dataset.py:37-40 | the trailing whitespace `int()` skips is removed: the result is a prefix of the input that does not end with such whitespace |
| PyInt.ParseDigitsAccepts | modules/read_bccd_dataset.py:37-40 | a digit string has a value iff it is non-empty and all digits |
| PyInt.ParseIntAccepts | modules/read_bccd_dataset.py:37-40 | `int(s)` succeeds iff `s`, without the surrounding whitespace `int()` skips, is an optional sign followed by at least one digit |
| PyInt.DigitChar | modules/read_bccd_dataset.py:37-40 | inverse of `int()` at lines 37-40, used for the round trip: the character for a digit value is a digit with that value |
| PyInt.NatToString | modules/read_bccd_dataset.py:37-40 | inverse of `int()` at lines 37-40, used for the round trip: the decimal numeral of `n` is non-empty, starts and ends with a digit, and parses back to `n` |
| PyInt.IntToString | modules/read_bccd_dataset.py:37-40 | inverse of `int()` at lines 37-40, used for the round trip: `str(n)` is non-empty and has no whitespace at either end |
| PyInt.ParseIntRoundTrip | modules/read_bccd_dataset.py:37-40 | `int(str(n)) == n` for every integer, negatives included |
| PyInt.ParseIntIgnoresSpace | modules/read_bccd_dataset.py:37-40 | whitespace `int()` skips around a numeral does not change its value |
| PyInt.SeparatorNotSkipped | modules/read_bccd_dataset.py:37-40 | `int()` raises ValueError on text that starts with U+001C to U+001F, which `str.isspace()` counts as whitespace but `int()` does not skip |
| PyInt.TrimStartSpaces | modules/read_bccd_dataset.py:37-40 | exactly a leading run of the whitespace `int()` skips is removed |
| PyInt.TrimEndSpaces | modules/read_bccd_dataset.py:37-40 | exactly a trailing run of the whitespace `int()` skips is removed |
| PyInt.Strip | modules/read_bccd_dataset.py:37-40 | the text `int()` parses after skipping surrounding whitespace: no longer than the input, and neither starting nor ending with that whitespace (`TrimStartSpaces`/`TrimEndSpaces` pin what is removed) |
| PyInt.ParseInt | modules/read_bccd_dataset.py:37-40 | `int(text)`, None where Python raises ValueError; a definition whose meaning is stated by `ParseIntAccepts`, `ParseIntRoundTrip` and `ParseIntIgnoresSpace` |
| ElementTree.Preorder | modules/read_bccd_dataset.py:35 | the preorder walk of an element starts with the element itself |
| ElementTree.PreorderAll | modules/read_bccd_dataset.py:35 | reference definition: the preorder walks of sibling subtrees, one after the other; `IterIsFilteredPreorder` ties `iter` to it |
| ElementTree.Iter | modules/read_bccd_dataset.py:35 | `iter(tag)` yields only elements tagged `tag`, and the root first when it matches |
| ElementTree.IterAll | modules/read_bccd_dataset.py:35 | `iter(tag)` over siblings yields only elements tagged `tag` |
| ElementTree.Filter | modules/read_bccd_dataset.py:35 | filtering keeps exactly the members that carry the tag and never adds any |
| ElementTree.FilterAppend | modules/read_bccd_dataset.py:35 | filtering distributes over concatenation, so order is kept |
| ElementTree.FilterFirst | modules/read_bccd_dataset.py:35 | the filtered sequence is non-empty iff some element matches, and it starts with the first match |
| ElementTree.IterIsFilteredPreorder | modules/read_bccd_dataset.py:35 | `iter(tag)` is the document-order walk with the non-matching elements removed |
| ElementTree.IterAllIsFilteredPreorder | modules/read_bccd_dataset.py:35 | the same for a sequence of sibling subtrees |
| ElementTree.IterMembership | modules/read_bccd_dataset.py:35 | an element is reached by `iter(tag)` iff it is in the subtree and carries `tag` |
| ElementTree.Find | modules/read_bccd_dataset.py:36-40 | a found element carries the last tag of the path |
| ElementTree.FindAmong | modules/read_bccd_dataset.py:36-40 | a match found among children carries the last tag of the path |
| ElementTree.FindChild | modules/read_bccd_dataset.py:36 | `find('name')` is the first child tagged `name`; it is None iff there is no such child |
| ElementTree.FindAmongOneTag | modules/read_bccd_dataset.py:36 | the same over a sequence of children |
| ElementTree.FindAmongFirstTagged | modules/read_bccd_dataset.py:37-40 | when the first child tagged `tag` matches the rest of the path, `find` returns that child's match |
| ElementTree.ChildStepAppend | modules/read_bccd_dataset.py:37-40 | one `iterfind` step distributes over concatenation |
| ElementTree.SelectPathAppend | modules/read_bccd_dataset.py:37-40 | `iterfind(path)` distributes over concatenation of starting elements |
| ElementTree.FindIsFirstOfIterfind | modules/read_bccd_dataset.py:37-40 | `find(path)` is the first element `iterfind(path)` yields, or None |
| ElementTree.FindAmongIsFirst | modules/read_bccd_dataset.py:37-40 | the same among children: the first match under the first matching child |
| ElementTree.EmptySelect | modules/read_bccd_dataset.py:37-40 | `iterfind` from nothing yields nothing |
| ElementTree.ChildStep | modules/read_bccd_dataset.py:37-40 | reference definition of one `iterfind` step: the children with the tag of each element in turn |
| ElementTree.SelectPath | modules/read_bccd_dataset.py:37-40 | reference definition of `iterfind(path)`: every element the path reaches, in document order; `FindIsFirstOfIterfind` ties `find` to it |
| ReadBccdDataset.StemShape | modules/read_bccd_dataset.py:31-32 | the stem is the base name up to its first `.`, and contains neither `/` nor `.` |
| ReadBccdDataset.ImageNameShape | modules/read_bccd_dataset.py:31-32 | the image name has no `/`, exactly one `.`, and ends in `.jpg` |
| ReadBccdDataset.ImageNameOf | modules/read_bccd_dataset.py:31-32 | `dir/stem.any.ext` gives `stem.jpg` for every directory part and every dotted suffix |
| ReadBccdDataset.LastSegment | modules/read_bccd_dataset.py:31 | the text after a directory part ending in `/` is `split('/')[-1]` |
| ReadBccdDataset.FirstDotPiece | modules/read_bccd_dataset.py:32 | for a stem without `.`, `(stem + ext).split('.')[0]` is the stem when `ext` is empty or starts with `.` |
| ReadBccdDataset.Stem | modules/read_bccd_dataset.py:31-32 | `file.split('/')[-1].split('.')[0]`; what it is, is stated by `StemShape` |
| ReadBccdDataset.ImageName | modules/read_bccd_dataset.py:31-32 | `filename`, the stem plus `.jpg`; what it is, is stated by `ImageNameShape` and `ImageNameOf` |
| ReadBccdDataset.Coordinate | modules/read_bccd_dataset.py:37-40 | `int(node.find('bndbox/' + coord).text)` with its three exceptions; its meaning is stated by `CoordinateMeaning` |
| ReadBccdDataset.CoordinateMeaning | modules/read_bccd_dataset.py:37-40 | a coordinate is read iff `iterfind('bndbox/' + coord)` reaches an element whose text is a numeral; its value is `int()` of that text; otherwise the error says whether the element, its text or a numeral was missing |
| ReadBccdDataset.ObjectRow | modules/read_bccd_dataset.py:36-42 | the row built from one `object` element, or the first exception; its meaning is stated by `ObjectRowFields` |
| ReadBccdDataset.ObjectRowFields | modules/read_bccd_dataset.py:36-42 | a row exists iff `iterfind` reaches a `name` element and the four coordinates are readable; its fields are, in order, the image name, the first `name` element's text and `int()` of the first `xmin`, `xmax`, `ymin`, `ymax` texts; otherwise the error of the first unreadable field in that order |
| ReadBccdDataset.ObjectRows | modules/read_bccd_dataset.py:35-44 | the rows of one file's `object` elements, in order, or the first error; its meaning is stated by `ObjectRowsOutcome` |
| ReadBccdDataset.ObjectRowsOutcome | modules/read_bccd_dataset.py:35-44 | success iff every object gives a row; then one row per object, row `k` from object `k`; otherwise the error of the first failing object |
| ReadBccdDataset.ObjectRowsPrefixFailure | modules/read_bccd_dataset.py:35-44 | a failing object ends the inner loop: later objects do not matter |
| ReadBccdDataset.ObjectRowsAllSucceed | modules/read_bccd_dataset.py:35-44 | objects that each give their row give exactly those rows |
| ReadBccdDataset.FileRows | modules/read_bccd_dataset.py:34-44 | missing or unparsable file gives its error; on success the file was parsed and gives one row per `iter('object')` element |
| ReadBccdDataset.FileRowsFromObjects | modules/read_bccd_dataset.py:31-43 | row `k` of a file is the row of its `k`-th object in document order and carries that file's image name |
| ReadBccdDataset.FileWithoutObjects | modules/read_bccd_dataset.py:35 | a file with no `object` element contributes no rows and raises nothing |
| ReadBccdDataset.ExtractRows | modules/read_bccd_dataset.py:29-44 | the rows of all files, file after file, or the first error; its meaning is stated by `ExtractRowsOutcome`, `ExtractRowsAppend`, `FileBlock` and `ExtractRowsCount` |
| ReadBccdDataset.ExtractRowsOutcome | modules/read_bccd_dataset.py:29-44 | the call succeeds iff every file's rows can be read; otherwise it fails with the error of the first failing file |
| ReadBccdDataset.ExtractRowsPrefixFailure | modules/read_bccd_dataset.py:29-44 | an error in the first `k` files is the error of the whole call |
| ReadBccdDataset.ExtractRowsAppend | modules/read_bccd_dataset.py:29-43 | processing `a + b` is processing `a` and then `b`; rows of `a` come first and an error in `a` wins |
| ReadBccdDataset.ExtractRowsSplit | modules/read_bccd_dataset.py:29-43 | a successful run over `a + b` is the rows of `a` followed by those of `b` |
| ReadBccdDataset.FileBlock | modules/read_bccd_dataset.py:29-43 | in a successful run each file's rows are one contiguous block, after the earlier files' rows and before the later ones |
| ReadBccdDataset.SingleFile | modules/read_bccd_dataset.py:29-43 | a run over one file is that file's rows or its error |
| ReadBccdDataset.ExtractRowsCount | modules/read_bccd_dataset.py:29-44 | a successful call has exactly as many rows as there are `object` elements across the files |
| ReadBccdDataset.ObjectCount | modules/read_bccd_dataset.py:35-44 | reference definition: the number of `iter('object')` elements over all parsed files |
| ReadBccdDataset.Extract | modules/read_bccd_dataset.py:27-48 | the DataFrame under the six columns, or the exception; `PreprocessBccdDataset` is proved to compute it |
| ReadBccdDataset.ExtractEmpty | modules/read_bccd_dataset.py:46-48 | no annotation files give an empty table with the six column names |
| ReadBccdDataset.BadObjectAborts | modules/read_bccd_dataset.py:36-40 | one object that cannot be read, in any file, makes the whole call fail |
| ReadBccdDataset.PreprocessBccdDataset | modules/read_bccd_dataset.py:27-48 | the double loop returns exactly `Extract`; its invariants are "`df` is the rows of the files so far" and "`cnt == len(df)`" |
| ReadBccdDataset.AppendObjectRows | modules/read_bccd_dataset.py:35-44 | the inner loop appends the file's rows to `df` and keeps `cnt == len(df)`, or returns the first object's error |
| ReadBccdDataset.ObjectElems | modules/read_bccd_dataset.py:35-42 | inverse of lines 35-42 (writing rows as annotation elements), used for the round trip: one `object` element per row, in order |
| ReadBccdDataset.CoordinateOf | modules/read_bccd_dataset.py:37-40 | round trip of lines 37-40: a coordinate element written from `n` reads back as `n` |
| ReadBccdDataset.ObjectRowOfFound | modules/read_bccd_dataset.py:36-42 | round trip of lines 36-42: when the five lookups reach a name element and four written numerals, the row holds exactly those values |
| ReadBccdDataset.FindInBox | modules/read_bccd_dataset.py:37-40 | `find('bndbox/coord')` reaches the first `coord` child of the only `bndbox` |
| ReadBccdDataset.FindsInObject | modules/read_bccd_dataset.py:36-40 | round trip of lines 36-40: on an element written from a row, the five lookups reach the name child and the four coordinates |
| ReadBccdDataset.ObjectRowOfElem | modules/read_bccd_dataset.py:36-42 | round trip of lines 36-42: reading back a row's written element gives the row, whatever the coordinates (no `xmin <= xmax` check) and with a None cell type passed through |
| ReadBccdDataset.IterAllEmpty | modules/read_bccd_dataset.py:35 | subtrees with no match give no match together |
| ReadBccdDataset.IterObjectShaped | modules/read_bccd_dataset.py:35 | an `object` element with no nested `object` is the only match of `iter('object')` |
| ReadBccdDataset.IterObjectElem | modules/read_bccd_dataset.py:35 | round trip of line 35: a row's written element is its own only `iter('object')` match |
| ReadBccdDataset.IterObjectElems | modules/read_bccd_dataset.py:35 | round trip of line 35: `iter('object')` over the written row elements yields each once, in order |
| ReadBccdDataset.FileRowsOfAnnotation | modules/read_bccd_dataset.py:34-44 | round trip of lines 34-44: a file written from rows carrying its image name reads back as exactly those rows |
| ReadBccdDataset.ExtractOfAnnotations | modules/read_bccd_dataset.py:27-48 | round trip of lines 27-48: files written from groups of rows give the table of all groups' rows, file by file, under the six columns |

## Left out

- Directory enumeration (`glob` in `__init__`, line 10): the list of annotation paths is a parameter.
- The cache/download call at line 30: `cache_or_download_file`, `CACHE_DIR` and `url_base` are not defined in the file, and the result `f` is never used. If they were really missing, every non-empty call would raise `AttributeError` there. The model assumes they exist and have no effect on the rows.
- XML text parsing (`ET.parse`, line 34): modelled as the `read` parameter, which returns a parsed tree or `Missing`/`Unparsable`. The tree's attributes, tails and namespaces are not modelled.
- `pandas.DataFrame` construction (line 46): the table is a sequence of column names and a sequence of six-field rows.
- PyInt.ParseInt: accepts ASCII decimal digits only. Python's `int()` also accepts `_` between digits and non-ASCII decimal digits (such as Arabic-Indic ones); the model rejects those. It also has no limit on the number of digits, while current Python raises ValueError beyond 4300 digits by default.
- ParseIntAccepts: does not model Python's default 4300-digit limit; a longer numeral is accepted here and rejected by Python.
- ParseIntRoundTrip: does not model Python's default 4300-digit limit, beyond which `str(n)` and `int()` raise ValueError.
- ElementTree.Find: takes its path already split at `/`, and covers only paths made of plain tags. The other XPath forms ElementTree supports do not occur in the code.
- The docstring's claims that a file "test.csv" is written with columns x1, y1, x2, y2: the code writes no file and uses the column order modelled here.
- Unused imports (`os`, `sys`, `random`, `copyfile`) and the dead assignment `row = []` at line 33.
- The `read_data` object: its only state, `annotations`, is set once and never updated, so the method takes the list as a parameter instead of being a class method.
