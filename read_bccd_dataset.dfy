/** `read_data.preprocess_bccd_dataset`: turn a list of Pascal-VOC annotation
    files into a table with one row per `object` element, columns
    filename, cell_type, xmin, xmax, ymin, ymax. */
module ReadBccdDataset {
  import opened Wrappers
  import opened ElementTree
  import opened PyStrings
  import opened PyInt

  /** What `ET.parse(path)` yields for one annotation path: the parsed tree,
      or the exception it raises. */
  datatype Document = Tree(root: Elem) | Missing | Unparsable

  /** The exceptions that abort the whole call. */
  datatype Error =
    | FileNotFound(path: string)                     // ET.parse cannot open the file
    | XmlParseError(path: string)                    // ET.ParseError
    | NoSuchElement(query: string)                   // find(query) is None, so `.text` raises AttributeError
    | NoText(query: string)                          // int(None) raises TypeError
    | NotAnInteger(query: string, text: string)      // int(text) raises ValueError

  /** One row of the table: the image file name, the `name` text (None for an
      empty `<name/>`), and the four box coordinates. */
  datatype Row = Row(filename: string, cellType: Option<string>, xmin: int, xmax: int, ymin: int, ymax: int)

  /** The DataFrame: its column names and its rows. */
  datatype Table = Table(columns: seq<string>, rows: seq<Row>)

  const Columns: seq<string> := ["filename", "cell_type", "xmin", "xmax", "ymin", "ymax"]

  // ---------------------------------------------------------------------------
  // The image name derived from an annotation path
  // ---------------------------------------------------------------------------

  /** `file.split('/')[-1].split('.')[0]`: the base name of the path up to
      its first '.'. */
  function Stem(path: string): string {
    var segments := Split(path, '/');
    Split(segments[|segments| - 1], '.')[0]
  }

  /** `file.split('/')[-1].split('.')[0] + '.jpg'`. */
  function ImageName(path: string): string {
    Stem(path) + ".jpg"
  }

  /** The stem is the text of the base name (after the last '/') up to its
      first '.', and holds neither character. */
  lemma StemShape(path: string)
    ensures var segments := Split(path, '/'); var base := segments[|segments| - 1];
      var stem := Stem(path);
      |stem| <= |base| && stem == base[..|stem|] && (|stem| < |base| ==> base[|stem|] == '.')
    ensures '/' !in Stem(path) && '.' !in Stem(path)
  {
    var segments := Split(path, '/');
    var base := segments[|segments| - 1];
    var stem := Stem(path);
    SplitPiecesWithoutSep(path, '/');
    SplitPiecesWithoutSep(base, '.');
    SplitFirstPiece(base, '.');
    assert '/' !in stem by {
      forall k | 0 <= k < |stem| ensures stem[k] != '/' {
        assert stem[k] == base[k];
      }
    }
  }

  /** The image name is a bare file name: no directory, a stem without a dot,
      and the extension ".jpg". */
  lemma ImageNameShape(path: string)
    ensures var r := ImageName(path);
      '/' !in r && |r| >= 4 && r[|r| - 4..] == ".jpg" && '.' !in r[..|r| - 4]
    ensures multiset(ImageName(path))['.'] == 1
  {
    StemShape(path);
    var stem := Stem(path);
    var r := stem + ".jpg";
    assert r[..|r| - 4] == stem;
    assert r[|r| - 4..] == ".jpg";
    assert '/' !in ".jpg";
    assert multiset(r) == multiset(stem) + multiset(".jpg");
    assert multiset(".jpg") == multiset{'.', 'j', 'p', 'g'};
  }

  /** Every path is some directory part `dir` (empty or ending in '/'), a stem
      without '.' or '/', and a rest that is empty or starts with '.'; the
      image name is the stem plus ".jpg", however deep the directory and
      however many dots follow the stem. */
  lemma ImageNameOf(dir: string, stem: string, ext: string)
    requires dir == [] || dir[|dir| - 1] == '/'
    requires '/' !in stem && '/' !in ext && '.' !in stem
    requires ext == [] || ext[0] == '.'
    ensures ImageName(dir + stem + ext) == stem + ".jpg"
  {
    var base := stem + ext;
    assert dir + stem + ext == dir + base;
    LastSegment(dir, base);
    FirstDotPiece(stem, ext);
  }

  /** The text after a directory part is the last '/'-piece. */
  lemma LastSegment(dir: string, base: string)
    requires dir == [] || dir[|dir| - 1] == '/'
    requires '/' !in base
    ensures var segments := Split(dir + base, '/'); segments[|segments| - 1] == base
  {
    SplitWithoutSep(base, '/');
    if dir != [] {
      var d := dir[..|dir| - 1];
      assert dir + base == d + ['/'] + base;
      SplitAtSep(d, base, '/');
    } else {
      assert dir + base == base;
    }
  }

  /** The text before the first '.' of `stem + ext` is `stem`. */
  lemma FirstDotPiece(stem: string, ext: string)
    requires '.' !in stem
    requires ext == [] || ext[0] == '.'
    ensures Split(stem + ext, '.')[0] == stem
  {
    SplitWithoutSep(stem, '.');
    if ext == [] {
      assert stem + ext == stem;
    } else {
      assert stem + ext == stem + ['.'] + ext[1..];
      SplitAtSep(stem, ext[1..], '.');
    }
  }

  // ---------------------------------------------------------------------------
  // One object element to one row
  // ---------------------------------------------------------------------------

  /** `int(node.find('bndbox/' + coord).text)`. */
  function Coordinate(node: Elem, coord: string): (r: Result<int, Error>)
  {
    var query := "bndbox/" + coord;
    match Find(node, ["bndbox", coord])
    case None => Failure(NoSuchElement(query))
    case Some(el) =>
      match el.text
      case None => Failure(NoText(query))
      case Some(t) =>
        match ParseInt(t)
        case None => Failure(NotAnInteger(query, t))
        case Some(n) => Success(n)
  }

  /** The row for one `object` element, or the first exception its field
      lookups raise, in the order name, xmin, xmax, ymin, ymax. */
  function ObjectRow(filename: string, node: Elem): Result<Row, Error>
  {
    match Find(node, ["name"])
    case None => Failure(NoSuchElement("name"))
    case Some(nameElem) =>
      var xmin :- Coordinate(node, "xmin");
      var xmax :- Coordinate(node, "xmax");
      var ymin :- Coordinate(node, "ymin");
      var ymax :- Coordinate(node, "ymax");
      Success(Row(filename, nameElem.text, xmin, xmax, ymin, ymax))
  }

  /** `int(node.find('bndbox/' + coord).text)` raises nothing: `iterfind`
      reaches some element, it has text, and the text is a numeral. */
  predicate CoordReadable(node: Elem, coord: string) {
    var hits := SelectPath([node], ["bndbox", coord]);
    hits != [] && hits[0].text.Some? && IsNumeral(Strip(hits[0].text.value))
  }

  /** `int()` of the text of the first `bndbox/coord` element. */
  function CoordValue(node: Elem, coord: string): int
    requires CoordReadable(node, coord)
  {
    var t := SelectPath([node], ["bndbox", coord])[0].text.value;
    ParseIntAccepts(t);
    ParseInt(t).value
  }

  /** The exception `int(node.find('bndbox/' + coord).text)` raises when the
      coordinate is not readable. */
  function CoordError(node: Elem, coord: string): Error {
    var query := "bndbox/" + coord;
    var hits := SelectPath([node], ["bndbox", coord]);
    if hits == [] then NoSuchElement(query)
    else if hits[0].text.None? then NoText(query)
    else NotAnInteger(query, hits[0].text.value)
  }

  /** A coordinate is read from the first element `iterfind('bndbox/' +
      coord)` yields: its value is `int()` of that element's text, and when
      it cannot be read the error says why. */
  lemma CoordinateMeaning(node: Elem, coord: string)
    ensures Coordinate(node, coord).Success? <==> CoordReadable(node, coord)
    ensures CoordReadable(node, coord) ==> Coordinate(node, coord) == Success(CoordValue(node, coord))
    ensures !CoordReadable(node, coord) ==> Coordinate(node, coord) == Failure(CoordError(node, coord))
  {
    FindIsFirstOfIterfind(node, ["bndbox", coord]);
    var hits := SelectPath([node], ["bndbox", coord]);
    if hits != [] && hits[0].text.Some? {
      ParseIntAccepts(hits[0].text.value);
    }
  }

  /** A row is produced exactly when `iterfind` reaches a `name` element and
      the four coordinates are readable. Its fields are, in order, the image
      name, the text of the first `name` element and the values of
      `bndbox/xmin`, `xmax`, `ymin`, `ymax`. Otherwise the error is that
      of the first field, in that order, that cannot be read. */
  lemma ObjectRowFields(filename: string, node: Elem)
    ensures ObjectRow(filename, node).Success? <==>
      (SelectPath([node], ["name"]) != [] &&
       CoordReadable(node, "xmin") && CoordReadable(node, "xmax") &&
       CoordReadable(node, "ymin") && CoordReadable(node, "ymax"))
    ensures ObjectRow(filename, node).Success? ==>
      ObjectRow(filename, node).value ==
        Row(filename, SelectPath([node], ["name"])[0].text,
            CoordValue(node, "xmin"), CoordValue(node, "xmax"),
            CoordValue(node, "ymin"), CoordValue(node, "ymax"))
    ensures ObjectRow(filename, node).Failure? ==>
      ObjectRow(filename, node).error ==
        if SelectPath([node], ["name"]) == [] then NoSuchElement("name")
        else if !CoordReadable(node, "xmin") then CoordError(node, "xmin")
        else if !CoordReadable(node, "xmax") then CoordError(node, "xmax")
        else if !CoordReadable(node, "ymin") then CoordError(node, "ymin")
        else CoordError(node, "ymax")
  {
    FindIsFirstOfIterfind(node, ["name"]);
    CoordinateMeaning(node, "xmin");
    CoordinateMeaning(node, "xmax");
    CoordinateMeaning(node, "ymin");
    CoordinateMeaning(node, "ymax");
  }

  /** `ObjectRow` for the rows of one file. */
  function RowReader(filename: string): Elem -> Result<Row, Error> {
    node => ObjectRow(filename, node)
  }

  /** The rows `readRow` gives for a sequence of `object` elements, in order,
      or the error of the first element it fails on. */
  function ObjectRows(readRow: Elem -> Result<Row, Error>, nodes: seq<Elem>): (r: Result<seq<Row>, Error>)
    decreases |nodes|
  {
    if nodes == [] then Success([])
    else
      var last := |nodes| - 1;
      match ObjectRows(readRow, nodes[..last])
      case Failure(e) => Failure(e)
      case Success(rows) =>
        match readRow(nodes[last])
        case Failure(e) => Failure(e)
        case Success(row) => Success(rows + [row])
  }

  /** The inner loop succeeds exactly when every object gives a row; then
      row `k` is the row of object `k`, and otherwise the error is that of the
      first object that fails. */
  lemma {:induction false} ObjectRowsOutcome(readRow: Elem -> Result<Row, Error>, nodes: seq<Elem>)
    decreases |nodes|
    ensures var r := ObjectRows(readRow, nodes);
      r.Success? <==> forall k :: 0 <= k < |nodes| ==> readRow(nodes[k]).Success?
    ensures var r := ObjectRows(readRow, nodes);
      r.Success? ==>
        (|r.value| == |nodes| &&
         forall k :: 0 <= k < |nodes| ==> readRow(nodes[k]) == Success(r.value[k]))
    ensures var r := ObjectRows(readRow, nodes);
      r.Failure? ==>
        exists k :: (0 <= k < |nodes| &&
          readRow(nodes[k]) == Failure(r.error) &&
          forall j :: 0 <= j < k ==> readRow(nodes[j]).Success?)
  {
    if nodes != [] {
      var last := |nodes| - 1;
      ObjectRowsOutcome(readRow, nodes[..last]);
      assert forall k :: 0 <= k < last ==> nodes[..last][k] == nodes[k];
    }
  }

  /** A failure among the first `k` objects is the failure of the whole
      sequence. */
  lemma {:induction false} ObjectRowsPrefixFailure(readRow: Elem -> Result<Row, Error>, nodes: seq<Elem>, k: nat)
    requires k <= |nodes|
    requires ObjectRows(readRow, nodes[..k]).Failure?
    ensures ObjectRows(readRow, nodes) == ObjectRows(readRow, nodes[..k])
    decreases |nodes|
  {
    if k < |nodes| {
      var last := |nodes| - 1;
      assert nodes[..last][..k] == nodes[..k];
      ObjectRowsPrefixFailure(readRow, nodes[..last], k);
    } else {
      assert nodes[..k] == nodes;
    }
  }

  /** When `readRow` turns element `k` into row `k` for every `k`, the
      elements together give exactly those rows. */
  lemma {:induction false} ObjectRowsAllSucceed(readRow: Elem -> Result<Row, Error>, nodes: seq<Elem>, rows: seq<Row>)
    requires |nodes| == |rows|
    requires forall k :: 0 <= k < |nodes| ==> readRow(nodes[k]) == Success(rows[k])
    ensures ObjectRows(readRow, nodes) == Success(rows)
    decreases |nodes|
  {
    if nodes != [] {
      var last := |nodes| - 1;
      ObjectRowsAllSucceed(readRow, nodes[..last], rows[..last]);
      assert rows[..last] + [rows[last]] == rows;
    }
  }

  // ---------------------------------------------------------------------------
  // One annotation file to its rows
  // ---------------------------------------------------------------------------

  /** The rows of one annotation file: one per element `iter('object')`
      reaches, all carrying the image name derived from the path. */
  function FileRows(path: string, read: string -> Document): (r: Result<seq<Row>, Error>)
    ensures read(path).Missing? ==> r == Failure(FileNotFound(path))
    ensures read(path).Unparsable? ==> r == Failure(XmlParseError(path))
    ensures r.Success? ==> read(path).Tree? && |r.value| == |Iter(read(path).root, "object")|
  {
    match read(path)
    case Missing => Failure(FileNotFound(path))
    case Unparsable => Failure(XmlParseError(path))
    case Tree(root) =>
      var nodes := Iter(root, "object");
      ObjectRowsOutcome(RowReader(ImageName(path)), nodes);
      ObjectRows(RowReader(ImageName(path)), nodes)
  }

  /** Row `k` of a file comes from the `k`-th `object` element in document
      order and carries the image name derived from the file's path. */
  lemma FileRowsFromObjects(path: string, read: string -> Document)
    requires FileRows(path, read).Success?
    ensures var rows := FileRows(path, read).value; var nodes := Iter(read(path).root, "object");
      forall k :: 0 <= k < |rows| ==>
        ObjectRow(ImageName(path), nodes[k]) == Success(rows[k]) && rows[k].filename == ImageName(path)
  {
    var rows := FileRows(path, read).value;
    var nodes := Iter(read(path).root, "object");
    ObjectRowsOutcome(RowReader(ImageName(path)), nodes);
    forall k | 0 <= k < |rows|
      ensures ObjectRow(ImageName(path), nodes[k]) == Success(rows[k]) && rows[k].filename == ImageName(path)
    {
      assert RowReader(ImageName(path))(nodes[k]) == Success(rows[k]);
      ObjectRowFields(ImageName(path), nodes[k]);
    }
  }

  /** A file none of whose elements is tagged `object` contributes no rows
      and raises nothing. */
  lemma FileWithoutObjects(path: string, read: string -> Document)
    requires read(path).Tree?
    requires forall x :: x in Preorder(read(path).root) ==> x.tag != "object"
    ensures FileRows(path, read) == Success([])
  {
    var nodes := Iter(read(path).root, "object");
    if nodes != [] {
      IterMembership(read(path).root, "object", nodes[0]);
      assert false;
    }
  }

  // ---------------------------------------------------------------------------
  // All files to the table
  // ---------------------------------------------------------------------------

  /** `FileRows` for the files of one call. */
  function FileReader(read: string -> Document): string -> Result<seq<Row>, Error> {
    path => FileRows(path, read)
  }

  /** The rows `readFile` gives for the files, file after file, or the error
      of the first file it fails on. */
  function ExtractRows(readFile: string -> Result<seq<Row>, Error>, paths: seq<string>): (r: Result<seq<Row>, Error>)
    decreases |paths|
  {
    if paths == [] then Success([])
    else
      var last := |paths| - 1;
      match ExtractRows(readFile, paths[..last])
      case Failure(e) => Failure(e)
      case Success(done) =>
        match readFile(paths[last])
        case Failure(e) => Failure(e)
        case Success(rows) => Success(done + rows)
  }

  /** The call succeeds exactly when every file's rows can be read, and
      otherwise fails with the error of the first file that fails. */
  lemma {:induction false} ExtractRowsOutcome(readFile: string -> Result<seq<Row>, Error>, paths: seq<string>)
    decreases |paths|
    ensures ExtractRows(readFile, paths).Success? <==> forall i :: 0 <= i < |paths| ==> readFile(paths[i]).Success?
    ensures ExtractRows(readFile, paths).Failure? ==>
      exists i :: (0 <= i < |paths| &&
        readFile(paths[i]) == Failure(ExtractRows(readFile, paths).error) &&
        forall j :: 0 <= j < i ==> readFile(paths[j]).Success?)
  {
    if paths != [] {
      var last := |paths| - 1;
      ExtractRowsOutcome(readFile, paths[..last]);
      assert forall i :: 0 <= i < last ==> paths[..last][i] == paths[i];
    }
  }

  /** One more file: its rows after those of the files before it, or the
      first error. */
  lemma ExtractRowsStep(readFile: string -> Result<seq<Row>, Error>, paths: seq<string>, i: nat)
    requires i < |paths|
    ensures ExtractRows(readFile, paths[..i + 1]) ==
      match ExtractRows(readFile, paths[..i])
      case Failure(e) => Failure(e)
      case Success(done) =>
        match readFile(paths[i])
        case Failure(e) => Failure(e)
        case Success(rows) => Success(done + rows)
  {
    assert paths[..i + 1][..i] == paths[..i];
    assert paths[..i + 1][i] == paths[i];
  }

  /** A failure among the first `k` files is the failure of the whole call. */
  lemma {:induction false} ExtractRowsPrefixFailure(readFile: string -> Result<seq<Row>, Error>, paths: seq<string>, k: nat)
    requires k <= |paths|
    requires ExtractRows(readFile, paths[..k]).Failure?
    ensures ExtractRows(readFile, paths) == ExtractRows(readFile, paths[..k])
    decreases |paths|
  {
    if k < |paths| {
      var last := |paths| - 1;
      assert paths[..last][..k] == paths[..k];
      ExtractRowsPrefixFailure(readFile, paths[..last], k);
      ExtractRowsStep(readFile, paths, last);
      assert paths[..last + 1] == paths;
    } else {
      assert paths[..k] == paths;
    }
  }

  /** Processing `a + b` is processing `a`, then `b`: the rows of `a` come
      first, and an error in `a` wins over one in `b`. */
  lemma {:induction false} ExtractRowsAppend(readFile: string -> Result<seq<Row>, Error>, a: seq<string>, b: seq<string>)
    decreases |b|
    ensures ExtractRows(readFile, a + b) ==
      match ExtractRows(readFile, a)
      case Failure(e) => Failure(e)
      case Success(x) =>
        match ExtractRows(readFile, b)
        case Failure(e) => Failure(e)
        case Success(y) => Success(x + y)
  {
    if b == [] {
      assert a + b == a;
      match ExtractRows(readFile, a)
      case Failure(e) =>
      case Success(x) => assert x + [] == x;
    } else {
      var last := |b| - 1;
      assert (a + b)[..|a + b| - 1] == a + b[..last];
      assert (a + b)[|a + b| - 1] == b[last];
      ExtractRowsAppend(readFile, a, b[..last]);
      match ExtractRows(readFile, a)
      case Failure(e) =>
      case Success(x) =>
        match ExtractRows(readFile, b[..last])
        case Failure(e) =>
        case Success(y) =>
          match readFile(b[last])
          case Failure(e) =>
          case Success(z) => assert x + y + z == x + (y + z);
    }
  }

  /** A successful run over `a + b` is a successful run over `a` followed by
      one over `b`. */
  lemma ExtractRowsSplit(readFile: string -> Result<seq<Row>, Error>, a: seq<string>, b: seq<string>)
    requires ExtractRows(readFile, a + b).Success?
    ensures ExtractRows(readFile, a).Success? && ExtractRows(readFile, b).Success?
    ensures ExtractRows(readFile, a + b).value == ExtractRows(readFile, a).value + ExtractRows(readFile, b).value
  {
    ExtractRowsAppend(readFile, a, b);
  }

  /** In a successful run, the rows of a file sit, as one block, after those
      of the files before it and before those of the files after it. */
  lemma FileBlock(readFile: string -> Result<seq<Row>, Error>, before: seq<string>, path: string, after: seq<string>)
    requires ExtractRows(readFile, before + [path] + after).Success?
    ensures ExtractRows(readFile, before).Success? && readFile(path).Success? &&
      ExtractRows(readFile, after).Success?
    ensures ExtractRows(readFile, before + [path] + after).value ==
      ExtractRows(readFile, before).value + readFile(path).value + ExtractRows(readFile, after).value
  {
    ExtractRowsSplit(readFile, before + [path], after);
    ExtractRowsSplit(readFile, before, [path]);
    SingleFile(readFile, path);
  }

  /** A run over a single file is that file's rows. */
  lemma SingleFile(readFile: string -> Result<seq<Row>, Error>, path: string)
    ensures ExtractRows(readFile, [path]) == readFile(path)
  {
    assert [path][..0] == [];
    match readFile(path)
    case Failure(e) =>
    case Success(rows) => assert [] + rows == rows;
  }

  /** The number of `object` elements across the parsed files. */
  function ObjectCount(paths: seq<string>, read: string -> Document): nat
    decreases |paths|
  {
    if paths == [] then 0
    else
      var p := paths[|paths| - 1];
      ObjectCount(paths[..|paths| - 1], read) + (if read(p).Tree? then |Iter(read(p).root, "object")| else 0)
  }

  /** A successful call yields exactly one row per `object` element of every
      file, so `cnt` ends as the total number of objects. */
  lemma {:induction false} ExtractRowsCount(paths: seq<string>, read: string -> Document)
    decreases |paths|
    ensures ExtractRows(FileReader(read), paths).Success? ==>
      |ExtractRows(FileReader(read), paths).value| == ObjectCount(paths, read)
  {
    if paths != [] {
      var last := |paths| - 1;
      ExtractRowsCount(paths[..last], read);
      assert FileReader(read)(paths[last]) == FileRows(paths[last], read);
    }
  }

  /** The DataFrame the call returns, or the exception that aborts it. */
  function Extract(paths: seq<string>, read: string -> Document): Result<Table, Error>
  {
    match ExtractRows(FileReader(read), paths)
    case Failure(e) => Failure(e)
    case Success(rows) => Success(Table(Columns, rows))
  }

  /** An empty annotation list gives an empty table that still has the six
      column names. */
  lemma ExtractEmpty(read: string -> Document)
    ensures Extract([], read) == Success(Table(Columns, []))
    ensures |Columns| == 6
  {
  }

  /** One malformed object anywhere aborts the whole call: no table at all. */
  lemma BadObjectAborts(paths: seq<string>, read: string -> Document, i: nat, node: Elem)
    requires i < |paths| && read(paths[i]).Tree?
    requires node in Iter(read(paths[i]).root, "object")
    requires ObjectRow(ImageName(paths[i]), node).Failure?
    ensures Extract(paths, read).Failure?
  {
    var nodes := Iter(read(paths[i]).root, "object");
    var k :| 0 <= k < |nodes| && nodes[k] == node;
    ObjectRowsOutcome(RowReader(ImageName(paths[i])), nodes);
    assert FileRows(paths[i], read).Failure?;
    assert FileReader(read)(paths[i]).Failure?;
    ExtractRowsOutcome(FileReader(read), paths);
  }

  // ---------------------------------------------------------------------------
  // The imperative loop of preprocess_bccd_dataset
  // ---------------------------------------------------------------------------

  /** The double loop: for each file, derive the image name, parse it, and
      append one row per `object` element to `df`, counting them in `cnt`;
      the first exception aborts the call. */
  method PreprocessBccdDataset(annotations: seq<string>, read: string -> Document)
    returns (data: Result<Table, Error>)
    ensures data == Extract(annotations, read)
  {
    var df: seq<Row> := [];
    var cnt := 0;
    for i := 0 to |annotations|
      invariant ExtractRows(FileReader(read), annotations[..i]) == Success(df)
      invariant cnt == |df|
    {
      var file := annotations[i];
      var filename := ImageName(file);
      ExtractRowsStep(FileReader(read), annotations, i);
      match read(file)
      case Missing =>
        ExtractRowsPrefixFailure(FileReader(read), annotations, i + 1);
        return Failure(FileNotFound(file));
      case Unparsable =>
        ExtractRowsPrefixFailure(FileReader(read), annotations, i + 1);
        return Failure(XmlParseError(file));
      case Tree(root) =>
        var nodes := Iter(root, "object");
        var grown;
        grown, cnt := AppendObjectRows(filename, nodes, df, cnt);
        assert FileReader(read)(file) == ObjectRows(RowReader(filename), nodes);
        if grown.Failure? {
          ExtractRowsPrefixFailure(FileReader(read), annotations, i + 1);
          return Failure(grown.error);
        }
        df := grown.value;
    }
    assert annotations[..|annotations|] == annotations;
    data := Success(Table(Columns, df));
  }

  /** The inner loop: for each `object` element, build its row, append it to
      `df` and add one to `cnt`; the first element whose row cannot be built
      aborts with that error. */
  method AppendObjectRows(filename: string, nodes: seq<Elem>, df: seq<Row>, cnt: nat)
    returns (grown: Result<seq<Row>, Error>, count: nat)
    requires cnt == |df|
    ensures grown.Success? <==> ObjectRows(RowReader(filename), nodes).Success?
    ensures grown.Success? ==> grown.value == df + ObjectRows(RowReader(filename), nodes).value
    ensures grown.Success? ==> count == |grown.value|
    ensures grown.Failure? ==> grown.error == ObjectRows(RowReader(filename), nodes).error
  {
    var rows := df;
    count := cnt;
    for j := 0 to |nodes|
      invariant ObjectRows(RowReader(filename), nodes[..j]).Success?
      invariant rows == df + ObjectRows(RowReader(filename), nodes[..j]).value
      invariant count == |rows|
    {
      assert nodes[..j + 1][..j] == nodes[..j];
      assert nodes[..j + 1][j] == nodes[j];
      var row := ObjectRow(filename, nodes[j]);
      if row.Failure? {
        ObjectRowsPrefixFailure(RowReader(filename), nodes, j + 1);
        return Failure(row.error), count;
      }
      rows := rows + [row.value];
      count := count + 1;
    }
    assert nodes[..|nodes|] == nodes;
    grown := Success(rows);
  }

  // ---------------------------------------------------------------------------
  // Writing rows back as annotation elements
  // ---------------------------------------------------------------------------

  /** A coordinate element: the tag and the decimal numeral of the value. */
  function CoordElem(coord: string, v: int): Elem {
    Elem(coord, Some(IntToString(v)), [])
  }

  /** The `bndbox` element of a row: `xmin`, `xmax`, `ymin`, `ymax` in this
      order. */
  function BoxElem(row: Row): Elem {
    Elem("bndbox", None, [
      CoordElem("xmin", row.xmin), CoordElem("xmax", row.xmax),
      CoordElem("ymin", row.ymin), CoordElem("ymax", row.ymax)])
  }

  /** The `object` element a row is read from: a `name` child with the class
      text, then the `bndbox` child. */
  function ObjectElem(row: Row): Elem {
    Elem("object", None, [Elem("name", row.cellType, []), BoxElem(row)])
  }

  function ObjectElems(rows: seq<Row>): (r: seq<Elem>)
    ensures |r| == |rows| && forall k :: 0 <= k < |rows| ==> r[k] == ObjectElem(rows[k])
  {
    if rows == [] then [] else [ObjectElem(rows[0])] + ObjectElems(rows[1..])
  }

  /** An `annotation` root whose children are the `object` elements of the
      given rows. */
  function AnnotationElem(rows: seq<Row>): Elem {
    Elem("annotation", None, ObjectElems(rows))
  }

  /** A coordinate whose element holds the numeral of `n` reads back as `n`. */
  lemma CoordinateOf(node: Elem, coord: string, n: int)
    requires Find(node, ["bndbox", coord]) == Some(CoordElem(coord, n))
    ensures Coordinate(node, coord) == Success(n)
  {
    ParseIntRoundTrip(n);
  }

  /** When `find` reaches a `name` element and four coordinate elements
      holding numerals, the row is those texts and values. */
  lemma ObjectRowOfFound(filename: string, node: Elem, row: Row)
    requires Find(node, ["name"]) == Some(Elem("name", row.cellType, []))
    requires Find(node, ["bndbox", "xmin"]) == Some(CoordElem("xmin", row.xmin))
    requires Find(node, ["bndbox", "xmax"]) == Some(CoordElem("xmax", row.xmax))
    requires Find(node, ["bndbox", "ymin"]) == Some(CoordElem("ymin", row.ymin))
    requires Find(node, ["bndbox", "ymax"]) == Some(CoordElem("ymax", row.ymax))
    ensures ObjectRow(filename, node) == Success(Row(filename, row.cellType, row.xmin, row.xmax, row.ymin, row.ymax))
  {
    CoordinateOf(node, "xmin", row.xmin);
    CoordinateOf(node, "xmax", row.xmax);
    CoordinateOf(node, "ymin", row.ymin);
    CoordinateOf(node, "ymax", row.ymax);
  }

  lemma CoordTagsDistinct()
    ensures "xmin" != "xmax" && "xmin" != "ymin" && "xmin" != "ymax"
    ensures "xmax" != "ymin" && "xmax" != "ymax" && "ymin" != "ymax"
    ensures "name" != "bndbox"
  {
    assert "xmin"[2] != "xmax"[2] && "xmin"[0] != "ymin"[0] && "xmin"[0] != "ymax"[0];
    assert "xmax"[0] != "ymin"[0] && "xmax"[0] != "ymax"[0] && "ymin"[2] != "ymax"[2];
    assert "name"[0] != "bndbox"[0];
  }

  /** `find('bndbox/' + coord)` on an element whose second and last child is
      the only `bndbox` reaches the first child of the box tagged `coord`. */
  lemma FindInBox(node: Elem, coord: string, k: nat)
    requires |node.children| == 2 && node.children[0].tag != "bndbox" && node.children[1].tag == "bndbox"
    requires k < |node.children[1].children| && node.children[1].children[k].tag == coord
    requires forall j :: 0 <= j < k ==> node.children[1].children[j].tag != coord
    ensures Find(node, ["bndbox", coord]) == Some(node.children[1].children[k])
  {
    var box := node.children[1];
    FindAmongFirstTagged(box.children, coord, [], k);
    assert [coord] + [] == [coord];
    assert Find(box, [coord]) == Some(box.children[k]);
    FindAmongFirstTagged(node.children, "bndbox", [coord], 1);
    assert ["bndbox"] + [coord] == ["bndbox", coord];
  }

  /** The lookups of an element shaped like a written row reach the `name`
      child and the four coordinates of the box. */
  lemma FindsInObject(node: Elem, nameElem: Elem, cs: seq<Elem>)
    requires node.children == [nameElem, Elem("bndbox", None, cs)] && nameElem.tag == "name"
    requires |cs| == 4 && cs[0].tag == "xmin" && cs[1].tag == "xmax" && cs[2].tag == "ymin" && cs[3].tag == "ymax"
    ensures Find(node, ["name"]) == Some(nameElem)
    ensures Find(node, ["bndbox", "xmin"]) == Some(cs[0])
    ensures Find(node, ["bndbox", "xmax"]) == Some(cs[1])
    ensures Find(node, ["bndbox", "ymin"]) == Some(cs[2])
    ensures Find(node, ["bndbox", "ymax"]) == Some(cs[3])
  {
    CoordTagsDistinct();
    assert ["name"][1..] == [];
    FindAmongFirstTagged(node.children, "name", [], 0);
    assert ["name"] + [] == ["name"];
    FindInBox(node, "xmin", 0);
    FindInBox(node, "xmax", 1);
    FindInBox(node, "ymin", 2);
    FindInBox(node, "ymax", 3);
  }

  /** Reading a row's `object` element gives back the row, whatever the
      coordinates: `xmin > xmax` or negative values pass through unchecked,
      and an empty `name` gives a None cell type. */
  lemma ObjectRowOfElem(row: Row)
    ensures ObjectRow(row.filename, ObjectElem(row)) == Success(row)
  {
    var o := ObjectElem(row);
    FindsInObject(o, o.children[0], BoxElem(row).children);
    ObjectRowOfFound(row.filename, o, row);
  }

  /** `iter` finds nothing in a sequence of subtrees that each hold no match. */
  lemma {:induction false} IterAllEmpty(es: seq<Elem>, tag: string)
    requires forall k :: 0 <= k < |es| ==> Iter(es[k], tag) == []
    ensures IterAll(es, tag) == []
    decreases |es|
  {
    if es != [] {
      assert forall k :: 0 <= k < |es| - 1 ==> es[1..][k] == es[k + 1];
      IterAllEmpty(es[1..], tag);
    }
  }

  /** An `object` element whose children are a leaf and a box of leaves,
      none of them tagged `object`, is the only match of `iter('object')`. */
  lemma IterObjectShaped(node: Elem, nameElem: Elem, cs: seq<Elem>)
    requires node.tag == "object" && node.children == [nameElem, Elem("bndbox", None, cs)]
    requires nameElem.tag != "object" && nameElem.children == []
    requires forall k :: 0 <= k < |cs| ==> cs[k].tag != "object" && cs[k].children == []
    ensures Iter(node, "object") == [node]
  {
    forall k | 0 <= k < |cs| ensures Iter(cs[k], "object") == [] {
      assert IterAll(cs[k].children, "object") == [];
    }
    IterAllEmpty(cs, "object");
    assert "bndbox"[0] != "object"[0];
    assert Iter(Elem("bndbox", None, cs), "object") == [];
    assert Iter(nameElem, "object") == [];
    IterAllEmpty(node.children, "object");
  }

  /** A row's `object` element holds no other `object` element, so
      `iter('object')` yields it alone. */
  lemma IterObjectElem(row: Row)
    ensures Iter(ObjectElem(row), "object") == [ObjectElem(row)]
  {
    var o, cs := ObjectElem(row), BoxElem(row).children;
    assert "xmin"[0] != "object"[0] && "ymin"[0] != "object"[0] && "name"[0] != "object"[0];
    assert forall k :: 0 <= k < |cs| ==> cs[k].tag != "object" && cs[k].children == [];
    IterObjectShaped(o, o.children[0], cs);
  }

  /** `iter('object')` over the row elements yields each of them once, in
      order. */
  lemma {:induction false} IterObjectElems(rows: seq<Row>)
    ensures IterAll(ObjectElems(rows), "object") == ObjectElems(rows)
    decreases |rows|
  {
    if rows != [] {
      IterObjectElems(rows[1..]);
      IterObjectElem(rows[0]);
      assert ObjectElems(rows) == [ObjectElem(rows[0])] + ObjectElems(rows[1..]);
      assert ObjectElems(rows)[1..] == ObjectElems(rows[1..]);
    }
  }

  /** Extraction reads back every row of an annotation file written from
      rows, in order, provided the rows carry the file's image name. */
  lemma FileRowsOfAnnotation(path: string, read: string -> Document, rows: seq<Row>)
    requires read(path) == Tree(AnnotationElem(rows))
    requires forall k :: 0 <= k < |rows| ==> rows[k].filename == ImageName(path)
    ensures FileRows(path, read) == Success(rows)
  {
    var nodes := ObjectElems(rows);
    IterObjectElems(rows);
    assert "annotation"[0] != "object"[0];
    assert Iter(AnnotationElem(rows), "object") == nodes;
    var readRow := RowReader(ImageName(path));
    forall k | 0 <= k < |rows| ensures readRow(nodes[k]) == Success(rows[k]) {
      ObjectRowOfElem(rows[k]);
    }
    ObjectRowsAllSucceed(readRow, nodes, rows);
  }

  /** The rows of several groups, one group after the other. */
  function Flatten(groups: seq<seq<Row>>): seq<Row>
    decreases |groups|
  {
    if groups == [] then [] else Flatten(groups[..|groups| - 1]) + groups[|groups| - 1]
  }

  /** End to end: annotation files written from groups of rows are turned
      back into a table holding exactly those rows, group after group, under
      the six fixed columns. */
  lemma {:induction false} ExtractOfAnnotations(paths: seq<string>, read: string -> Document, groups: seq<seq<Row>>)
    requires |groups| == |paths|
    requires forall i :: 0 <= i < |paths| ==> read(paths[i]) == Tree(AnnotationElem(groups[i]))
    requires forall i, k :: 0 <= i < |paths| && 0 <= k < |groups[i]| ==> groups[i][k].filename == ImageName(paths[i])
    ensures Extract(paths, read) == Success(Table(Columns, Flatten(groups)))
    decreases |paths|
  {
    if paths != [] {
      var last := |paths| - 1;
      ExtractOfAnnotations(paths[..last], read, groups[..last]);
      FileRowsOfAnnotation(paths[last], read, groups[last]);
    }
  }
}
