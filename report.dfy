/**
 * The single-report endpoint of `netlify/functions/report.js`: the request
 * path names a date folder and a file as its last two `/`-separated
 * segments, and the answer is the file's text, or a JSON error.
 */
module ReportFetch {
  import opened Wrappers
  import opened JsString
  import opened FileSystem
  import opened Uri

  datatype FetchResponse = FetchResponse(statusCode: nat, body: string)

  const MissingParameters := "{\"error\":\"缺少必要参数\"}"
  const NoSuchReport := "{\"error\":\"报告文件不存在\"}"
  const FetchFailed := "{\"error\":\"获取报告内容失败\"}"

  /** The second-to-last segment of the path; `None` (`undefined`) when the path has a single segment. */
  function DateSegment(path: string): (r: Option<string>)
    ensures r.Some? <==> '/' in path
    ensures r.Some? ==> '/' !in r.value
  {
    var parts := Split(path, '/');
    if |parts| >= 2 then Some(parts[|parts| - 2])
    else
      JoinSplit(path, '/');
      None
  }

  /** The last segment of the path, before decoding. */
  function FileSegment(path: string): (r: string)
    ensures '/' !in r
  {
    var parts := Split(path, '/');
    parts[|parts| - 1]
  }

  /** The folder under the working directory that holds the dated report folders. */
  const StoreFolder := "报告"

  /**
   * A place on disk relative to the working directory: `ups` levels above
   * it, then the `down` segments (the cap at the file-system root, where
   * `..` stays put, is not counted).
   */
  datatype Location = Location(ups: nat, down: seq<string>)

  /** One segment of `path.join`: empty and `.` segments vanish, `..` cancels the segment before it. */
  function Step(at: Location, segment: string): Location {
    if segment == "" || segment == "." then at
    else if segment == ".." then
      if |at.down| > 0 then at.(down := at.down[..|at.down| - 1]) else at.(ups := at.ups + 1)
    else at.(down := at.down + [segment])
  }

  function Walk(at: Location, segments: seq<string>): Location
    decreases |segments|
  {
    if |segments| == 0 then at else Walk(Step(at, segments[0]), segments[1..])
  }

  /** Where `path.join(process.cwd(), '报告', date, filename)` lands; the file name may hold `/`. */
  function JoinedLocation(date: string, filename: string): Location {
    Walk(Location(0, []), [StoreFolder, date] + Split(filename, '/'))
  }

  /** A file name ending in `/`: `path.join` keeps the separator, and no file exists under such a name. */
  predicate EndsInSeparator(x: string) {
    |x| > 0 && x[|x| - 1] == '/'
  }

  /** A segment that names one entry of its folder. */
  predicate PlainSegment(x: string) {
    x != "" && x != "." && x != ".." && '/' !in x
  }

  /**
   * The file the request names, if the store holds it. Only a plain date
   * and a plain file name name a file of a date folder; any other pair
   * (`..`, a name holding `/`) names nothing.
   */
  function Lookup(root: Root, date: string, filename: string): (r: Option<FileMeta>)
    ensures r.Some? ==> JoinedLocation(date, filename) == Location(0, [StoreFolder, date, filename])
    ensures r.Some? <==> (PlainSegment(date) && PlainSegment(filename) && root.Listed? && date in root.entries
                          && root.entries[date].Directory? && filename in root.entries[date].files)
  {
    if PlainSegment(date) && PlainSegment(filename) && root.Listed? && date in root.entries
      && root.entries[date].Directory? && filename in root.entries[date].files
    then
      JoinedIffPlain(date, filename);
      Some(root.entries[date].files[filename])
    else None
  }

  /** After a plain date, the walk goes on from inside the date folder. */
  lemma WalkFromDate(date: string, filename: string)
    requires PlainSegment(date)
    ensures JoinedLocation(date, filename) == Walk(Location(0, [StoreFolder, date]), Split(filename, '/'))
  {
    var segments := [StoreFolder, date] + Split(filename, '/');
    assert PlainSegment(StoreFolder);
    assert segments[0] == StoreFolder && segments[1..][0] == date;
    assert segments[1..][1..] == Split(filename, '/');
    assert Step(Location(0, []), StoreFolder) == Location(0, [StoreFolder]);
    assert Step(Location(0, [StoreFolder]), date) == Location(0, [StoreFolder, date]);
    assert Walk(Location(0, []), segments) == Walk(Location(0, [StoreFolder]), segments[1..]);
    assert Walk(Location(0, [StoreFolder]), segments[1..]) == Walk(Location(0, [StoreFolder, date]), segments[1..][1..]);
  }

  /** Segments without `/` only ever leave segments without `/`. */
  lemma {:induction false} WalkKeepsSegments(at: Location, segments: seq<string>)
    requires forall i :: 0 <= i < |at.down| ==> '/' !in at.down[i]
    requires forall i :: 0 <= i < |segments| ==> '/' !in segments[i]
    ensures forall i :: 0 <= i < |Walk(at, segments).down| ==> '/' !in Walk(at, segments).down[i]
    decreases |segments|
  {
    if |segments| > 0 {
      var next := Step(at, segments[0]);
      assert forall i :: 0 <= i < |next.down| ==> '/' !in next.down[i] by {
        if segments[0] == ".." && |at.down| > 0 {
          assert forall i :: 0 <= i < |next.down| ==> next.down[i] == at.down[i];
        } else if segments[0] != "" && segments[0] != "." && segments[0] != ".." {
          assert forall i :: 0 <= i < |at.down| ==> next.down[i] == at.down[i];
        }
      }
      WalkKeepsSegments(next, segments[1..]);
    }
  }

  /** With a plain date, the join lands on the file called `filename` in the date folder exactly when the name is plain. */
  lemma JoinedIffPlain(date: string, filename: string)
    requires PlainSegment(date)
    ensures JoinedLocation(date, filename) == Location(0, [StoreFolder, date, filename]) <==> PlainSegment(filename)
  {
    WalkFromDate(date, filename);
    var inside := Location(0, [StoreFolder, date]);
    if '/' in filename {
      var parts := Split(filename, '/');
      WalkKeepsSegments(inside, parts);
      var at := Walk(inside, parts);
      assert |at.down| != 3 || '/' !in at.down[2];
    } else {
      assert Split(filename, '/') == [filename];
      assert Walk(inside, [filename]) == Step(inside, filename);
    }
  }

  /**
   * The handler: a preflight `OPTIONS` request is answered 200 with an
   * empty body. Otherwise the last segment is decoded first (a malformed
   * escape throws and gives 500); a missing or empty date or file name
   * gives 400; a file the store does not hold gives 404; one that cannot
   * be read gives 500; any other gives 200 and the file's text. Only a
   * file of the date folder is served: a name that `path.join` would
   * resolve elsewhere (`..%2F..%2Fpackage.json`) is not in the store and
   * gives 404, where `FetchAsWritten` serves whatever it reaches.
   */
  function FetchReport(httpMethod: string, path: string, root: Root): (r: FetchResponse)
    ensures httpMethod == "OPTIONS" ==> r == FetchResponse(200, "")
    ensures r.statusCode in {200, 400, 404, 500}
    ensures r.statusCode == 400 ==> r.body == MissingParameters
    ensures r.statusCode == 404 ==> r.body == NoSuchReport
    ensures r.statusCode == 500 ==> r.body == FetchFailed
  {
    if httpMethod == "OPTIONS" then FetchResponse(200, "")
    else
      var date := DateSegment(path);
      match Decode(FileSegment(path))
      case None => FetchResponse(500, FetchFailed)
      case Some(filename) =>
        if date.None? || date.value == "" || filename == "" then FetchResponse(400, MissingParameters)
        else match Lookup(root, date.value, filename)
          case None => FetchResponse(404, NoSuchReport)
          case Some(meta) =>
            if meta.readable then FetchResponse(200, meta.content) else FetchResponse(500, FetchFailed)
  }

  /** The date is the segment before the last, and the file the last, however many segments come first. */
  lemma Segments(prefix: string, date: string, name: string)
    requires '/' !in date && '/' !in name
    ensures DateSegment(prefix + "/" + date + "/" + name) == Some(date)
    ensures FileSegment(prefix + "/" + date + "/" + name) == name
  {
    SplitAppend(prefix, '/', date);
    SplitAppend(prefix + "/" + date, '/', name);
    assert prefix + "/" + date == prefix + ['/'] + date;
    assert prefix + "/" + date + "/" + name == (prefix + ['/'] + date) + ['/'] + name;
  }

  /**
   * For a well-formed request `…/date/name` whose name needs no decoding:
   * the text of a readable file with status 200, 404 for a file the store
   * does not hold, never 500 for a missing one.
   */
  lemma FetchByPath(httpMethod: string, prefix: string, date: string, name: string, root: Root)
    requires httpMethod != "OPTIONS"
    requires '/' !in date && '/' !in name && '%' !in name
    requires date != "" && name != ""
    ensures var r := FetchReport(httpMethod, prefix + "/" + date + "/" + name, root);
      && (Lookup(root, date, name).None? <==> r.statusCode == 404)
      && (Lookup(root, date, name).Some? && Lookup(root, date, name).value.readable ==>
            r == FetchResponse(200, Lookup(root, date, name).value.content))
      && (r.statusCode == 500 <==> Lookup(root, date, name).Some? && !Lookup(root, date, name).value.readable)
  {
    Segments(prefix, date, name);
    DecodePlain(name);
  }

  /**
   * A file name written with `encodeURIComponent` is looked up under the
   * decoded name itself; one that is not a plain segment is not found.
   */
  lemma FetchEncodedName(httpMethod: string, prefix: string, date: string, name: string, root: Root)
    requires httpMethod != "OPTIONS"
    requires '/' !in date && date != "" && name != ""
    ensures var r := FetchReport(httpMethod, prefix + "/" + date + "/" + Encode(name), root);
      && (Lookup(root, date, name).None? <==> r.statusCode == 404)
      && (Lookup(root, date, name).Some? && Lookup(root, date, name).value.readable ==>
            r == FetchResponse(200, Lookup(root, date, name).value.content))
  {
    EncodeHasNoSlash(name);
    Segments(prefix, date, Encode(name));
    DecodeEncode(name);
  }

  /** Whenever the handler serves a file, the path named a stored, readable file inside its date folder. */
  lemma ServesOnlyDateFolder(httpMethod: string, path: string, root: Root)
    requires httpMethod != "OPTIONS"
    requires FetchReport(httpMethod, path, root).statusCode == 200
    ensures DateSegment(path).Some? && Decode(FileSegment(path)).Some?
    ensures var date := DateSegment(path).value;
      var name := Decode(FileSegment(path)).value;
      && JoinedLocation(date, name) == Location(0, [StoreFolder, date, name])
      && Lookup(root, date, name).Some? && Lookup(root, date, name).value.readable
      && FetchReport(httpMethod, path, root).body == Lookup(root, date, name).value.content
  {
  }

  /**
   * The handler as `report.js` is written: the file is whatever
   * `path.join` reaches on the whole `disk`, inside the report folder or
   * not. `path.join` keeps a trailing `/` of the file name, and a file
   * does not exist under a name with a trailing `/`, so such a name gives
   * 404. Folders are not on `disk` (reading one throws, so a name that
   * reaches a folder gives 500 in the source and 404 here).
   */
  function FetchAsWritten(httpMethod: string, path: string, disk: map<Location, FileMeta>): (r: FetchResponse)
    ensures httpMethod == "OPTIONS" ==> r == FetchResponse(200, "")
    ensures r.statusCode in {200, 400, 404, 500}
    ensures r.statusCode == 400 ==> r.body == MissingParameters
    ensures r.statusCode == 404 ==> r.body == NoSuchReport
    ensures r.statusCode == 500 ==> r.body == FetchFailed
  {
    if httpMethod == "OPTIONS" then FetchResponse(200, "")
    else
      var date := DateSegment(path);
      match Decode(FileSegment(path))
      case None => FetchResponse(500, FetchFailed)
      case Some(filename) =>
        if date.None? || date.value == "" || filename == "" then FetchResponse(400, MissingParameters)
        else
          var at := JoinedLocation(date.value, filename);
          if at !in disk || EndsInSeparator(filename) then FetchResponse(404, NoSuchReport)
          else if disk[at].readable then FetchResponse(200, disk[at].content)
          else FetchResponse(500, FetchFailed)
  }

  /** For `…/date/<encoded name>`, the handler as written looks at the location the name's join reaches. */
  lemma AsWrittenEncoded(httpMethod: string, prefix: string, date: string, name: string,
                         disk: map<Location, FileMeta>)
    requires httpMethod != "OPTIONS"
    requires '/' !in date && date != "" && name != ""
    ensures var at := JoinedLocation(date, name);
      FetchAsWritten(httpMethod, prefix + "/" + date + "/" + Encode(name), disk)
      == if at !in disk || EndsInSeparator(name) then FetchResponse(404, NoSuchReport)
         else if disk[at].readable then FetchResponse(200, disk[at].content)
         else FetchResponse(500, FetchFailed)
  {
    var path := prefix + "/" + date + "/" + Encode(name);
    EncodeHasNoSlash(name);
    Segments(prefix, date, Encode(name));
    DecodeEncode(name);
    assert DateSegment(path) == Some(date);
    assert Decode(FileSegment(path)) == Some(name);
  }

  /** The disk that holds just the store: each file of a listed date folder at `报告/<date>/<file>`. */
  function DiskOf(root: Root): map<Location, FileMeta> {
    if root.Listed? then
      map date, name | date in root.entries && root.entries[date].Directory? && name in root.entries[date].files
                       && PlainSegment(date) && PlainSegment(name)
        :: Location(0, [StoreFolder, date, name]) := root.entries[date].files[name]
    else map[]
  }

  /** The store's disk holds at `报告/<date>/<name>` exactly the file the store lookup finds. */
  lemma DiskOfLookup(root: Root, date: string, name: string)
    ensures Location(0, [StoreFolder, date, name]) in DiskOf(root) <==> Lookup(root, date, name).Some?
    ensures Lookup(root, date, name).Some? ==> DiskOf(root)[Location(0, [StoreFolder, date, name])] == Lookup(root, date, name).value
  {
    var at := Location(0, [StoreFolder, date, name]);
    if root.Listed? && at in DiskOf(root) {
      var d, f :| d in root.entries && root.entries[d].Directory? && f in root.entries[d].files
                  && PlainSegment(d) && PlainSegment(f) && Location(0, [StoreFolder, d, f]) == at;
      assert [StoreFolder, d, f][1] == d && [StoreFolder, d, f][2] == f;
    }
  }

  /**
   * On the disk that holds just the store, the handler as written and the
   * model's handler give the same answer for every plain date and plain
   * file name, sent encoded or not.
   */
  lemma AsWrittenAgrees(httpMethod: string, prefix: string, date: string, name: string, root: Root)
    requires PlainSegment(date) && PlainSegment(name)
    ensures FetchAsWritten(httpMethod, prefix + "/" + date + "/" + Encode(name), DiskOf(root))
         == FetchReport(httpMethod, prefix + "/" + date + "/" + Encode(name), root)
  {
    if httpMethod != "OPTIONS" {
      AsWrittenEncoded(httpMethod, prefix, date, name, DiskOf(root));
      EncodeHasNoSlash(name);
      Segments(prefix, date, Encode(name));
      DecodeEncode(name);
      JoinedIffPlain(date, name);
      DiskOfLookup(root, date, name);
    }
  }

  /**
   * The correction changes only requests whose date or file name is not
   * plain, that is, whose `path.join` does not land on a file of the date
   * folder.
   */
  lemma CorrectionOffFolderOnly(httpMethod: string, path: string, root: Root)
    requires FetchAsWritten(httpMethod, path, DiskOf(root)) != FetchReport(httpMethod, path, root)
    ensures httpMethod != "OPTIONS" && DateSegment(path).Some? && Decode(FileSegment(path)).Some?
    ensures !(PlainSegment(DateSegment(path).value) && PlainSegment(Decode(FileSegment(path)).value))
  {
    var date := DateSegment(path);
    var name := Decode(FileSegment(path));
    if date.Some? && name.Some? && PlainSegment(date.value) && PlainSegment(name.value) {
      JoinedIffPlain(date.value, name.value);
      DiskOfLookup(root, date.value, name.value);
      assert false;
    }
  }

  /** `../../package.json`: two `..` segments, then a file of the working directory. */
  const Traversal := ".." + "/" + ".." + "/" + "package.json"

  lemma SplitTraversal()
    ensures Split(Traversal, '/') == ["..", "..", "package.json"]
  {
    var dots := "..";
    assert CharIndex(dots, '/') == None;
    assert Traversal == dots + ['/'] + dots + ['/'] + "package.json";
    SplitAppend(dots, '/', dots);
    SplitAppend(dots + ['/'] + dots, '/', "package.json");
  }

  /** `..` segments in the file name climb out of the date folder and the report folder. */
  lemma TraversalLeavesStore()
    ensures JoinedLocation("20250919", Traversal) == Location(0, ["package.json"])
  {
    SplitTraversal();
    assert PlainSegment("20250919");
    WalkFromDate("20250919", Traversal);
    var parts := ["..", "..", "package.json"];
    var at1 := Location(0, [StoreFolder]);
    var at2 := Location(0, [StoreFolder, "20250919"]);
    assert Walk(at2, parts) == Walk(at1, parts[1..]);
    assert Walk(at1, parts[1..]) == Walk(Location(0, []), parts[2..]);
    assert Walk(Location(0, []), parts[2..]) == Walk(Location(0, ["package.json"]), []);
  }

  /**
   * A name that `path.join` resolves outside its date folder gets past the
   * 400 guard: as written the handler serves what it reaches, while the
   * model's handler answers 404.
   */
  lemma EscapeServed(httpMethod: string, prefix: string, date: string, name: string,
                     disk: map<Location, FileMeta>, root: Root)
    requires httpMethod != "OPTIONS"
    requires '/' !in date && date != "" && name != "" && !PlainSegment(name) && !EndsInSeparator(name)
    requires JoinedLocation(date, name) in disk && disk[JoinedLocation(date, name)].readable
    ensures FetchAsWritten(httpMethod, prefix + "/" + date + "/" + Encode(name), disk)
         == FetchResponse(200, disk[JoinedLocation(date, name)].content)
    ensures FetchReport(httpMethod, prefix + "/" + date + "/" + Encode(name), root) == FetchResponse(404, NoSuchReport)
  {
    AsWrittenEncoded(httpMethod, prefix, date, name, disk);
    FetchEncodedName(httpMethod, prefix, date, name, root);
  }

  /** As written, a file name that ends in `/` names no file: 404, whatever the disk holds. */
  lemma AsWrittenTrailingSeparator(httpMethod: string, prefix: string, date: string, name: string,
                                   disk: map<Location, FileMeta>)
    requires httpMethod != "OPTIONS"
    requires '/' !in date && date != "" && EndsInSeparator(name)
    ensures FetchAsWritten(httpMethod, prefix + "/" + date + "/" + Encode(name), disk) == FetchResponse(404, NoSuchReport)
  {
    AsWrittenEncoded(httpMethod, prefix, date, name, disk);
  }

  /** The request `…/20250919/..%2F..%2Fpackage.json` reads `package.json` from the working directory as written. */
  lemma TraversalServed(httpMethod: string, prefix: string, disk: map<Location, FileMeta>, root: Root)
    requires httpMethod != "OPTIONS"
    requires Location(0, ["package.json"]) in disk && disk[Location(0, ["package.json"])].readable
    ensures FetchAsWritten(httpMethod, prefix + "/" + "20250919" + "/" + Encode(Traversal), disk)
         == FetchResponse(200, disk[Location(0, ["package.json"])].content)
    ensures FetchReport(httpMethod, prefix + "/" + "20250919" + "/" + Encode(Traversal), root)
         == FetchResponse(404, NoSuchReport)
  {
    TraversalLeavesStore();
    assert Traversal[2] == '/' && Traversal[|Traversal| - 1] == 'n';
    EscapeServed(httpMethod, prefix, "20250919", Traversal, disk, root);
  }

  /** A path ending in `/` has an empty file name: 400. */
  lemma TrailingSlash(httpMethod: string, prefix: string, root: Root)
    requires httpMethod != "OPTIONS"
    ensures FetchReport(httpMethod, prefix + "/", root) == FetchResponse(400, MissingParameters)
  {
    SplitAppend(prefix, '/', "");
    assert prefix + "/" == prefix + ['/'] + "";
  }

  /** A path of one segment has no date: 400, unless the segment is malformed. */
  lemma SingleSegment(httpMethod: string, path: string, root: Root)
    requires httpMethod != "OPTIONS" && '/' !in path && Decode(path).Some?
    ensures FetchReport(httpMethod, path, root) == FetchResponse(400, MissingParameters)
  {
  }

  /** A malformed escape in the file name gives 500, even when the date segment is missing. */
  lemma MalformedName(httpMethod: string, prefix: string, plain: string, rest: string, root: Root)
    requires httpMethod != "OPTIONS"
    requires '/' !in plain && '%' !in plain && '/' !in rest
    requires |rest| < 2 || !IsHex(rest[0]) || !IsHex(rest[1])
    ensures FetchReport(httpMethod, prefix + "/" + plain + "%" + rest, root) == FetchResponse(500, FetchFailed)
  {
    var name := plain + ['%'] + rest;
    SplitAppend(prefix, '/', name);
    assert prefix + "/" + plain + "%" + rest == prefix + ['/'] + name;
    BadEscape(plain, rest);
  }
}
