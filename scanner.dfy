/**
 * The report listing of `netlify/functions/reports.js`: `scanReports`,
 * which walks the date folders of the report store and builds, per date,
 * the records of its report files sorted by file name from last to first,
 * and the function handler that serves that listing.
 */
module Scanner {
  import opened Wrappers
  import opened JsString
  import opened Collections
  import opened FileSystem
  import opened Extractor

  /** One record of the listing. `date` is the name of the folder the file is in. */
  datatype Report = Report(
    filename: string,
    title: string,
    reportType: string,
    date: string,
    size: string,
    preview: string,
    lastModified: int)

  function FilenameOf(r: Report): string {
    r.filename
  }

  /** The record pushed for file `name` of folder `date`. */
  function MakeReport(date: string, name: string, meta: FileMeta): (r: Report)
    ensures r.filename == name && r.date == date && r.lastModified == meta.mtime
  {
    Report(name, ExtractTitle(meta.content, name), ExtractType(name), date,
      FormatFileSize(meta.size), ExtractPreview(meta.content), meta.mtime)
  }

  /**
   * `rs` is the list of folder `date` with files `files`: one record per
   * report file and no other, each built from that file, in strictly
   * descending order of file name.
   */
  ghost predicate IsListing(date: string, files: map<string, FileMeta>, rs: seq<Report>) {
    && NamesOf(rs) == MarkdownNames(files)
    && (forall r :: r in rs ==> r.filename in files && r == MakeReport(date, r.filename, files[r.filename]))
    && StrictlyOrdered(rs, FilenameOf, true)
  }

  /** The file names of the records. */
  function NamesOf(rs: seq<Report>): set<string> {
    set r | r in rs :: r.filename
  }

  lemma MoveName(todo: set<string>, done: set<string>, f: string)
    requires f in todo && todo !! done
    ensures (todo - {f}) !! (done + {f}) && (todo - {f}) + (done + {f}) == todo + done
  {
  }

  lemma NamesOfSnoc(rs: seq<Report>, r: Report)
    ensures NamesOf(rs + [r]) == NamesOf(rs) + {r.filename}
  {
    forall x ensures x in rs + [r] <==> x in rs || x == r {
    }
  }

  /**
   * What `scanReports` returns for a store: `{}` when the root folder is
   * missing or when any call it makes throws; otherwise one key per date
   * folder, those with no report file included, and that folder's listing.
   */
  ghost predicate ScanResult(root: Root, reports: map<string, seq<Report>>) {
    match root
    case Missing => reports == map[]
    case Unlistable => reports == map[]
    case Listed(entries) =>
      if ListingThrows(entries) || ReadingThrows(entries) then reports == map[]
      else
        && reports.Keys == DirectoryNames(entries)
        && forall d :: d in reports ==> IsListing(d, entries[d].files, reports[d])
  }

  /** Records built from the files of folder `date`, one per file name. */
  ghost predicate FromFolder(date: string, files: map<string, FileMeta>, rs: seq<Report>) {
    forall r :: r in rs ==> r.filename in files && r == MakeReport(date, r.filename, files[r.filename])
  }

  /**
   * The loop over the report files of one date folder: the record of each
   * file is pushed in turn; `None` when reading a file throws.
   */
  method ReadFolder(date: string, files: map<string, FileMeta>) returns (result: Option<seq<Report>>)
    ensures result.None? <==> exists f :: f in MarkdownNames(files) && !files[f].readable
    ensures result.Some? ==> && NamesOf(result.value) == MarkdownNames(files)
                             && FromFolder(date, files, result.value)
                             && DistinctKeys(result.value, FilenameOf)
  {
    var names := MarkdownNames(files);
    var todo := names;
    var list: seq<Report> := [];
    while todo != {}
      invariant todo !! NamesOf(list) && todo + NamesOf(list) == names
      invariant FromFolder(date, files, list)
      invariant DistinctKeys(list, FilenameOf)
      invariant forall f :: f in names - todo ==> files[f].readable
      decreases |todo|
    {
      var f :| f in todo;
      var meta := files[f];
      if !meta.readable {
        return None;
      }
      var r := MakeReport(date, f, meta);
      assert forall x :: x in list ==> FilenameOf(x) != FilenameOf(r);
      AppendDistinct(list, r, FilenameOf);
      NamesOfSnoc(list, r);
      MoveName(todo, NamesOf(list), f);
      list := list + [r];
      todo := todo - {f};
    }
    return Some(list);
  }

  /** The records of one date folder, then the sort by file name, last first; `None` when reading a file throws. */
  method ScanFolder(date: string, files: map<string, FileMeta>) returns (result: Option<seq<Report>>)
    ensures result.None? <==> exists f :: f in MarkdownNames(files) && !files[f].readable
    ensures result.Some? ==> IsListing(date, files, result.value)
  {
    var read := ReadFolder(date, files);
    if read.None? {
      return None;
    }
    var list := read.value;
    var sorted := SortBy(list, FilenameOf, true);
    forall r ensures r in sorted <==> r in list {
      assert r in sorted <==> r in multiset(sorted);
      assert r in list <==> r in multiset(list);
    }
    assert NamesOf(sorted) == NamesOf(list);
    return Some(sorted);
  }

  /**
   * `scanReports()`. The folders are visited in whatever order the listing
   * of the root gives; the result is the same for every order.
   */
  method ScanReports(root: Root) returns (reports: map<string, seq<Report>>)
    ensures ScanResult(root, reports)
  {
    if !root.Listed? {
      return map[];
    }
    var entries := root.entries;
    var remaining := entries.Keys;
    reports := map[];
    while remaining != {}
      invariant remaining <= entries.Keys
      invariant forall d :: d in entries && d !in remaining ==> !entries[d].Unstatable? && !entries[d].UnreadableDirectory?
      invariant forall d, f :: d in entries && d !in remaining && entries[d].Directory? && f in entries[d].files && IsMarkdown(f) ==> entries[d].files[f].readable
      invariant reports.Keys == DirectoryNames(entries) - remaining
      invariant forall d :: d in reports ==> IsListing(d, entries[d].files, reports[d])
      decreases |remaining|
    {
      var d :| d in remaining;
      match entries[d] {
        case Unstatable =>
          return map[];
        case UnreadableDirectory =>
          return map[];
        case NotDirectory =>
        case Directory(files) =>
          var listed := ScanFolder(d, files);
          if listed.None? {
            var f :| f in MarkdownNames(files) && !files[f].readable;
            assert f in entries[d].files && IsMarkdown(f);
            return map[];
          }
          reports := reports[d := listed.value];
      }
      remaining := remaining - {d};
    }
  }

  /** The listing of a folder is fully determined by its files. */
  lemma ListingUnique(date: string, files: map<string, FileMeta>, a: seq<Report>, b: seq<Report>)
    requires IsListing(date, files, a) && IsListing(date, files, b)
    ensures a == b
  {
    forall r ensures r in a <==> r in b {
      if r in a {
        assert r.filename in NamesOf(b);
        var s :| s in b && s.filename == r.filename;
      }
      if r in b {
        assert r.filename in NamesOf(a);
        var s :| s in a && s.filename == r.filename;
      }
    }
    StrictlyOrderedUnique(a, b, FilenameOf, true);
  }

  /** `scanReports` is a function of the store: the order in which folders and files are listed does not matter. */
  lemma ScanDeterministic(root: Root, a: map<string, seq<Report>>, b: map<string, seq<Report>>)
    requires ScanResult(root, a) && ScanResult(root, b)
    ensures a == b
  {
    if root.Listed? && !ListingThrows(root.entries) && !ReadingThrows(root.entries) {
      forall d | d in a ensures a[d] == b[d] {
        ListingUnique(d, root.entries[d].files, a[d], b[d]);
      }
    }
  }

  /** A folder's listing has one record per report file. */
  lemma {:induction false} ListingSize(date: string, files: map<string, FileMeta>, rs: seq<Report>)
    requires IsListing(date, files, rs)
    ensures |rs| == |MarkdownNames(files)|
  {
    DistinctNamesCount(rs);
  }

  lemma {:induction false} DistinctNamesCount(rs: seq<Report>)
    requires StrictlyOrdered(rs, FilenameOf, true)
    ensures |rs| == |NamesOf(rs)|
    decreases |rs|
  {
    if |rs| > 0 {
      var rest := rs[1..];
      assert StrictlyOrdered(rest, FilenameOf, true) by {
        forall p, q | 0 <= p < q < |rest| ensures Precedes(FilenameOf(rest[p]), FilenameOf(rest[q]), true) {
          assert rest[p] == rs[p + 1] && rest[q] == rs[q + 1];
        }
      }
      DistinctNamesCount(rest);
      FirstNameIsNew(rs);
      NamesOfCons(rs);
    }
  }

  lemma FirstNameIsNew(rs: seq<Report>)
    requires |rs| > 0 && StrictlyOrdered(rs, FilenameOf, true)
    ensures rs[0].filename !in NamesOf(rs[1..])
  {
    var rest := rs[1..];
    forall r | r in rest ensures r.filename != rs[0].filename {
      var k :| 0 <= k < |rest| && rest[k] == r;
      assert rs[k + 1] == r;
      PrecedesIrreflexive(rs[0].filename, true);
    }
  }

  lemma NamesOfCons(rs: seq<Report>)
    requires |rs| > 0
    ensures NamesOf(rs) == NamesOf(rs[1..]) + {rs[0].filename}
  {
    assert rs == [rs[0]] + rs[1..];
    forall r ensures r in rs <==> r in rs[1..] || r == rs[0] {
    }
  }

  /** What the listing function answers: the status code and, unless the request is a preflight, the listing. */
  datatype ListingResponse = ListingResponse(statusCode: nat, body: Option<map<string, seq<Report>>>)

  /**
   * The handler of the listing endpoint: a preflight `OPTIONS` request is
   * answered 200 with an empty body, every other request 200 with the
   * result of `scanReports`. Since `scanReports` turns every failure into
   * `{}`, the handler's 500 answer is never given.
   */
  method ReportsHandler(httpMethod: string, root: Root) returns (resp: ListingResponse)
    ensures resp.statusCode == 200
    ensures httpMethod == "OPTIONS" ==> resp.body == None
    ensures httpMethod != "OPTIONS" ==> resp.body.Some? && ScanResult(root, resp.body.value)
  {
    if httpMethod == "OPTIONS" {
      return ListingResponse(200, None);
    }
    var reports := ScanReports(root);
    return ListingResponse(200, Some(reports));
  }
}
