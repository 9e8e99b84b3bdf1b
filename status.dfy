/**
 * The status endpoint of `netlify/functions/status.js`: `getReportsStats`,
 * which counts the date folders and the report files of the store and
 * names the greatest date folder, and the function handler that wraps
 * those figures in the server status answer.
 */
module Status {
  import opened Wrappers
  import opened JsString
  import opened Collections
  import opened FileSystem
  import opened Scanner

  /** The figures `getReportsStats` returns; `latestDate` is `null` when there is no date folder. */
  datatype Stats = Stats(totalReports: nat, totalDates: nat, latestDate: Option<string>)

  /** The figures of an absent store, and of any failure. */
  const NoStats := Stats(0, 0, None)

  /** The entries that `statSync(...).isDirectory()` accepts, whether or not they can then be listed. */
  function StatDirectories(entries: map<string, Entry>): set<string> {
    set d | d in entries.Keys && (entries[d].Directory? || entries[d].UnreadableDirectory?)
  }

  /** The number of report files of each entry, as a function. */
  function CountIn(entries: map<string, Entry>): string -> nat {
    d => MarkdownCount(entries, d)
  }

  /** The number of report files over all date folders. */
  ghost function TotalReports(entries: map<string, Entry>): nat {
    SumOver(DirectoryNames(entries), CountIn(entries))
  }

  /**
   * What `getReportsStats` returns for a store: no figures when the root is
   * missing or when a `statSync` or `readdirSync` throws (the catch);
   * otherwise the total number of report files, the number of date
   * folders, and the greatest date folder name in string order, `null`
   * exactly when there is none. File contents are never read here.
   */
  ghost predicate StatsResult(root: Root, stats: Stats) {
    match root
    case Missing => stats == NoStats
    case Unlistable => stats == NoStats
    case Listed(entries) =>
      if ListingThrows(entries) then stats == NoStats
      else
        && stats.totalReports == TotalReports(entries)
        && stats.totalDates == |DirectoryNames(entries)|
        && (stats.latestDate.None? <==> DirectoryNames(entries) == {})
        && (stats.latestDate.Some? ==> IsGreatest(stats.latestDate.value, DirectoryNames(entries)))
  }

  /** The filter of the root listing: the names that stat as directories, each once. */
  method DateFolders(entries: map<string, Entry>) returns (dates: Option<seq<string>>)
    ensures dates.None? <==> exists d :: d in entries && entries[d].Unstatable?
    ensures dates.Some? ==> && Elements(dates.value) == StatDirectories(entries)
                            && DistinctKeys(dates.value, Itself)
  {
    var remaining := entries.Keys;
    var list: seq<string> := [];
    while remaining != {}
      invariant remaining <= entries.Keys
      invariant forall d :: d in entries && d !in remaining ==> !entries[d].Unstatable?
      invariant Elements(list) == StatDirectories(entries) - remaining
      invariant DistinctKeys(list, Itself)
      decreases |remaining|
    {
      var d :| d in remaining;
      if entries[d].Unstatable? {
        return None;
      }
      if entries[d].Directory? || entries[d].UnreadableDirectory? {
        assert d !in Elements(list);
        AppendDistinct(list, d, Itself);
        ElementsSnoc(list, d);
        list := list + [d];
      }
      remaining := remaining - {d};
    }
    return Some(list);
  }

  /** The counting loop: the sum of the report files of `dates`; `None` when listing one of them throws. */
  method CountReports(entries: map<string, Entry>, dates: seq<string>) returns (total: Option<nat>)
    requires forall d :: d in dates ==> d in entries
    requires DistinctKeys(dates, Itself)
    ensures total.None? <==> exists d :: d in dates && entries[d].UnreadableDirectory?
    ensures total.Some? ==> total.value == SumOver(Elements(dates), CountIn(entries))
  {
    var sum := 0;
    for k := 0 to |dates|
      invariant sum == SumOver(Elements(dates[..k]), CountIn(entries))
      invariant forall i :: 0 <= i < k ==> !entries[dates[i]].UnreadableDirectory?
    {
      var d := dates[k];
      if entries[d].UnreadableDirectory? {
        return None;
      }
      SumOverPrefix(dates, k, CountIn(entries));
      sum := sum + MarkdownCount(entries, d);
    }
    assert dates[..|dates|] == dates;
    return Some(sum);
  }

  /** `getReportsStats()`. */
  method GetReportsStats(root: Root) returns (stats: Stats)
    ensures StatsResult(root, stats)
  {
    if !root.Listed? {
      return NoStats;
    }
    var entries := root.entries;
    var dates := DateFolders(entries);
    if dates.None? {
      return NoStats;
    }
    var folders := dates.value;
    forall d | d in folders ensures d in entries {
      assert d in Elements(folders);
    }
    var total := CountReports(entries, folders);
    if total.None? {
      return NoStats;
    }
    forall d | d in entries ensures !entries[d].UnreadableDirectory? {
      assert entries[d].UnreadableDirectory? ==> d in Elements(folders);
    }
    assert !ListingThrows(entries);
    assert StatDirectories(entries) == DirectoryNames(entries);
    var sorted := SortBy(folders, Itself, false);
    var latest: Option<string> := None;
    if |sorted| > 0 {
      LastIsGreatest(folders, sorted);
      latest := Some(sorted[|sorted| - 1]);
    } else {
      assert folders == [];
    }
    DistinctCount(folders);
    return Stats(total.value, |folders|, latest);
  }

  /** `getReportsStats` is a function of the store: the order of the listings does not matter. */
  lemma StatsDeterministic(root: Root, a: Stats, b: Stats)
    requires StatsResult(root, a) && StatsResult(root, b)
    ensures a == b
  {
    if root.Listed? && !ListingThrows(root.entries) && a.latestDate.Some? {
      GreatestUnique(a.latestDate.value, b.latestDate.value, DirectoryNames(root.entries));
    }
  }

  /**
   * When every report file can be read, the status figures agree with the
   * full listing: as many dates as listed folders, as many reports as
   * listed records, and the latest date is the greatest listed folder.
   */
  lemma StatsAgreeWithScan(entries: map<string, Entry>, reports: map<string, seq<Report>>, stats: Stats)
    requires ScanResult(Listed(entries), reports) && StatsResult(Listed(entries), stats)
    requires !ListingThrows(entries) && !ReadingThrows(entries)
    ensures stats.totalDates == |reports|
    ensures stats.totalReports == SumOver(reports.Keys, LengthsIn(reports))
    ensures stats.latestDate.None? <==> reports == map[]
    ensures stats.latestDate.Some? ==> IsGreatest(stats.latestDate.value, reports.Keys)
  {
    forall d | d in reports.Keys ensures CountIn(entries)(d) == LengthsIn(reports)(d) {
      ListingSize(d, entries[d].files, reports[d]);
    }
    SumOverCongruent(reports.Keys, CountIn(entries), LengthsIn(reports));
    if stats.latestDate.None? {
      assert reports.Keys == {};
    }
  }

  /**
   * The two endpoints part ways on an unreadable report file: the listing
   * is then `{}`, while the status figures, which never open a file, still
   * count it.
   */
  lemma UnreadableFileStillCounted(entries: map<string, Entry>, reports: map<string, seq<Report>>, stats: Stats)
    requires ScanResult(Listed(entries), reports) && StatsResult(Listed(entries), stats)
    requires !ListingThrows(entries) && ReadingThrows(entries)
    ensures reports == map[]
    ensures stats.totalReports > 0 && stats.latestDate.Some?
  {
    var d, f :| d in entries && entries[d].Directory? && f in entries[d].files
      && IsMarkdown(f) && !entries[d].files[f].readable;
    assert f in MarkdownNames(entries[d].files);
    assert d in DirectoryNames(entries);
    SumOverRemove(DirectoryNames(entries), CountIn(entries), d);
  }

  /**
   * A store of two date folders `a` before `b` in string order: the
   * report files of both are counted, and `b` is the latest date.
   */
  lemma TwoFolders(a: string, b: string, fa: map<string, FileMeta>, fb: map<string, FileMeta>, stats: Stats)
    requires Below(a, b)
    requires StatsResult(Listed(map[a := Directory(fa), b := Directory(fb)]), stats)
    ensures stats == Stats(|MarkdownNames(fa)| + |MarkdownNames(fb)|, 2, Some(b))
  {
    TwoFolderNames(a, b, fa, fb);
    TwoFolderTotal(a, b, fa, fb);
    GreatestUnique(stats.latestDate.value, b, {a, b});
  }

  lemma TwoFolderNames(a: string, b: string, fa: map<string, FileMeta>, fb: map<string, FileMeta>)
    requires Below(a, b)
    ensures !ListingThrows(map[a := Directory(fa), b := Directory(fb)])
    ensures DirectoryNames(map[a := Directory(fa), b := Directory(fb)]) == {a, b}
    ensures |{a, b}| == 2 && IsGreatest(b, {a, b})
  {
    BelowIrreflexive(a);
  }

  lemma TwoFolderTotal(a: string, b: string, fa: map<string, FileMeta>, fb: map<string, FileMeta>)
    requires a != b
    ensures SumOver({a, b}, CountIn(map[a := Directory(fa), b := Directory(fb)]))
         == |MarkdownNames(fa)| + |MarkdownNames(fb)|
  {
    var f := CountIn(map[a := Directory(fa), b := Directory(fb)]);
    SumOverRemove({a, b}, f, a);
    assert {a, b} - {a} == {b};
    SumOverRemove({b}, f, b);
    assert {b} - {b} == {};
  }

  /** The status payload; the two timestamps of the answer are not modelled. */
  datatype StatusBody = StatusBody(status: string, totalReports: nat, totalDates: nat, latestDate: Option<string>)

  /** What the status function answers: the status code and, unless the request is a preflight, the payload. */
  datatype StatusResponse = StatusResponse(statusCode: nat, body: Option<StatusBody>)

  const Running := "running"

  /**
   * The handler of the status endpoint: a preflight `OPTIONS` request is
   * answered 200 with an empty body, every other request 200 with status
   * `running` and the figures of `getReportsStats`. Since that function
   * turns every failure into zero figures, the handler's 500 answer is
   * never given.
   */
  method StatusHandler(httpMethod: string, root: Root) returns (resp: StatusResponse)
    ensures resp.statusCode == 200
    ensures httpMethod == "OPTIONS" <==> resp.body.None?
    ensures resp.body.Some? ==> && resp.body.value.status == Running
                                && StatsResult(root, Stats(resp.body.value.totalReports,
                                     resp.body.value.totalDates, resp.body.value.latestDate))
  {
    if httpMethod == "OPTIONS" {
      return StatusResponse(200, None);
    }
    var stats := GetReportsStats(root);
    return StatusResponse(200, Some(StatusBody(Running, stats.totalReports, stats.totalDates, stats.latestDate)));
  }
}
