/**
 * The report page of `script.js`: the three module-level variables
 * `reportsData`, `currentDate` and `isConnected`, and the parts of the
 * page its functions write (status line, date list with its active item,
 * content area, modals, server panel, refresh button), reduced to values.
 */
module Client {
  import opened Wrappers
  import opened JsString
  import opened Collections

  /** One report of the page's data, with the fields the page shows. */
  datatype Card = Card(filename: string, title: string, reportType: string, size: string, preview: string)

  /** What the page shows for one report: an empty size or preview is replaced by a fixed text. */
  datatype CardView = CardView(title: string, reportType: string, size: string, preview: string)

  /** One entry of the date list or of the date modal; the list shows a notice instead when there is no data. */
  datatype DateItem = DateEntry(date: string, dateLabel: string, count: nat) | NoDataNotice

  /** The content area. */
  datatype Pane = Blank | ReportList(date: string, dateLabel: string, cards: seq<CardView>) | ErrorNotice(message: string)

  /** `formatDate`: an eight-character key `YYYYMMDD` is shown as `YYYY-MM-DD`; anything else as it is. */
  function FormatDate(s: string): (r: string)
    ensures |s| == 8 ==> |r| == 10 && r[4] == '-' && r[7] == '-'
    ensures |s| == 8 ==> r[..4] == s[..4] && r[5..7] == s[4..6] && r[8..] == s[6..]
    ensures |s| != 8 ==> r == s
  {
    if |s| == 8 then s[0..4] + "-" + s[4..6] + "-" + s[6..8] else s
  }

  /** Drops the two separators of a `YYYY-MM-DD` text. */
  function Compact(r: string): string
    requires |r| == 10
  {
    r[..4] + r[5..7] + r[8..]
  }

  /** An eight-character key is read back from its label. */
  lemma CompactFormatDate(s: string)
    requires |s| == 8
    ensures Compact(FormatDate(s)) == s
  {
    assert s == s[..4] + s[4..6] + s[6..];
  }

  /** Two eight-character keys never share a label. */
  lemma FormatDateInjective(a: string, b: string)
    requires |a| == 8 && |b| == 8 && FormatDate(a) == FormatDate(b)
    ensures a == b
  {
    CompactFormatDate(a);
    CompactFormatDate(b);
  }

  /** A key already written `YYYY-MM-DD` shares its label with the eight-character key of the same day. */
  lemma FormatDateCollision()
    ensures FormatDate("2025-09-19") == FormatDate("20250919")
  {
    var s := "20250919";
    assert s[0..4] == "2025" && s[4..6] == "09" && s[6..8] == "19";
  }

  const MissingSize := "N/A"
  const MissingPreview := "点击查看详细内容..."

  /** The view of one report in the content area. */
  function ShowCard(c: Card): (v: CardView)
    ensures v.title == c.title && v.reportType == c.reportType
    ensures v.size != "" && (c.size != "" ==> v.size == c.size) && (c.size == "" ==> v.size == MissingSize)
    ensures v.preview != "" && (c.preview != "" ==> v.preview == c.preview)
      && (c.preview == "" ==> v.preview == MissingPreview)
  {
    CardView(c.title, c.reportType, if c.size == "" then MissingSize else c.size,
      if c.preview == "" then MissingPreview else c.preview)
  }

  function ShowCards(cs: seq<Card>): (vs: seq<CardView>)
    ensures |vs| == |cs| && forall i :: 0 <= i < |cs| ==> vs[i] == ShowCard(cs[i])
  {
    if |cs| == 0 then [] else [ShowCard(cs[0])] + ShowCards(cs[1..])
  }

  /** `reportsData[date] || []`. */
  function CardsOf(m: map<string, seq<Card>>, date: string): seq<Card> {
    if date in m then m[date] else []
  }

  /** The content area after `renderReportList(date)`. */
  function ReportListFor(m: map<string, seq<Card>>, date: string): (p: Pane)
    ensures p.ReportList? && p.date == date && p.dateLabel == FormatDate(date)
    ensures |p.cards| == |CardsOf(m, date)| && forall i :: 0 <= i < |p.cards| ==> p.cards[i] == ShowCard(CardsOf(m, date)[i])
    ensures date !in m ==> p.cards == []
  {
    ReportList(date, FormatDate(date), ShowCards(CardsOf(m, date)))
  }

  /** The entries shown for the keys `dates` of `m`, in that order. */
  function Entries(m: map<string, seq<Card>>, dates: seq<string>): (items: seq<DateItem>)
    requires forall i :: 0 <= i < |dates| ==> dates[i] in m
    ensures |items| == |dates|
    ensures forall i :: 0 <= i < |dates| ==> items[i] == DateEntry(dates[i], FormatDate(dates[i]), |m[dates[i]]|)
  {
    if |dates| == 0 then [] else Entries(m, dates[..|dates| - 1]) + [DateEntry(dates[|dates| - 1], FormatDate(dates[|dates| - 1]), |m[dates[|dates| - 1]]|)]
  }

  /** `dates` is `Object.keys(...).sort().reverse()` of an object with keys `keys`. */
  ghost predicate IsNewestFirst(dates: seq<string>, keys: set<string>) {
    Elements(dates) == keys && StrictlyOrdered(dates, Itself, true)
  }

  /** `items` lists the keys of `m` newest first. */
  ghost predicate ListsNewestFirst(m: map<string, seq<Card>>, items: seq<DateItem>) {
    exists dates :: IsNewestFirst(dates, m.Keys) && (forall i :: 0 <= i < |dates| ==> dates[i] in m) && items == Entries(m, dates)
  }

  /** There is one newest-first order of a set of keys. */
  lemma NewestFirstUnique(a: seq<string>, b: seq<string>, keys: set<string>)
    requires IsNewestFirst(a, keys) && IsNewestFirst(b, keys)
    ensures a == b
  {
    forall x ensures x in a <==> x in b {
      assert x in a <==> x in Elements(a);
      assert x in b <==> x in Elements(b);
    }
    StrictlyOrderedUnique(a, b, Itself, true);
  }

  /** The first key of the newest-first order is the greatest key. */
  lemma NewestFirstHead(dates: seq<string>, keys: set<string>)
    requires IsNewestFirst(dates, keys) && |dates| > 0
    ensures IsGreatest(dates[0], keys)
  {
    assert dates[0] in Elements(dates);
    forall y | y in keys && y != dates[0] ensures Below(y, dates[0]) {
      assert y in Elements(dates);
      var i :| 0 <= i < |dates| && dates[i] == y;
      assert Precedes(Itself(dates[0]), Itself(dates[i]), true);
    }
  }

  /** In a newest-first list, the item at `k` is that of the `k`-th key of the newest-first order. */
  lemma EntryAt(m: map<string, seq<Card>>, dates: seq<string>, items: seq<DateItem>, k: nat)
    requires IsNewestFirst(dates, m.Keys) && ListsNewestFirst(m, items) && k < |items|
    ensures k < |dates| && items[k] == DateEntry(dates[k], FormatDate(dates[k]), |m[dates[k]]|)
  {
    var shown :| IsNewestFirst(shown, m.Keys) && (forall i :: 0 <= i < |shown| ==> shown[i] in m) && items == Entries(m, shown);
    NewestFirstUnique(shown, dates, m.Keys);
  }

  /** `Object.values(m).reduce((sum, reports) => sum + reports.length, 0)`. */
  method TotalCards(m: map<string, seq<Card>>) returns (total: nat)
    ensures total == SumOver(m.Keys, LengthsIn(m))
  {
    var keys := ObjectKeys(m);
    total := 0;
    for k := 0 to |keys|
      invariant total == SumOver(Elements(keys[..k]), LengthsIn(m))
    {
      SumOverPrefix(keys, k, LengthsIn(m));
      assert keys[k] in Elements(keys);
      total := total + |m[keys[k]]|;
    }
    assert keys[..|keys|] == keys;
  }

  /** The label of the greatest key of `m` in the default order, `无` when there is none. */
  method LatestLabel(m: map<string, seq<Card>>) returns (text: string)
    ensures m == map[] ==> text == NoDate
    ensures m != map[] ==> exists g :: IsGreatest(g, m.Keys) && text == FormatDate(g)
  {
    var keys := ObjectKeys(m);
    var dates := SortBy(keys, Itself, false);
    if |dates| > 0 {
      LastIsGreatest(keys, dates);
      text := FormatDate(dates[|dates| - 1]);
    } else {
      assert keys == [];
      text := NoDate;
    }
  }

  /** The whole page state, to say what a method leaves as it was. */
  datatype PageState = PageState(
    reportsData: map<string, seq<Card>>,
    currentDate: Option<string>,
    isConnected: bool,
    statusText: string,
    statusClass: string,
    dateList: seq<DateItem>,
    active: seq<bool>,
    content: Pane,
    openModals: set<string>,
    dateModalContent: seq<DateItem>,
    reportCount: nat,
    lastUpdate: string,
    serverStatus: string,
    refreshLabel: string,
    refreshDisabled: bool)

  const DateModal := "dateModal"
  const ServerModal := "serverModal"
  const NoDate := "无"
  const Running := "运行中"
  const ConnectionFailed := "连接失败"
  const RefreshIdle := "🔄 刷新"
  const RefreshBusy := "🔄 刷新中..."

  class App {
    var reportsData: map<string, seq<Card>>
    var currentDate: Option<string>
    var isConnected: bool
    /** The status line: its text and its class. */
    var statusText: string
    var statusClass: string
    /** The items of the date list and which of them carry the `active` class. */
    var dateList: seq<DateItem>
    var active: seq<bool>
    var content: Pane
    var openModals: set<string>
    var dateModalContent: seq<DateItem>
    /** The server panel. */
    var reportCount: nat
    var lastUpdate: string
    var serverStatus: string
    /** The refresh button: its label and whether it is disabled. */
    var refreshLabel: string
    var refreshDisabled: bool

    ghost function State(): PageState
      reads this
    {
      PageState(reportsData, currentDate, isConnected, statusText, statusClass, dateList, active,
        content, openModals, dateModalContent, reportCount, lastUpdate, serverStatus, refreshLabel, refreshDisabled)
    }

    /** Every date item has one entry in `active`. */
    ghost predicate Valid()
      reads this
    {
      |active| == |dateList|
    }

    /** Exactly the item at `index` is active. */
    ghost predicate OnlyActive(index: nat)
      reads this
    {
      forall i :: 0 <= i < |active| ==> (active[i] <==> i == index)
    }

    /** The server panel shows the number of reports and the newest key of `reportsData`. */
    ghost predicate ServerFiguresShown()
      reads this
    {
      && reportCount == SumOver(reportsData.Keys, LengthsIn(reportsData))
      && (reportsData == map[] ==> lastUpdate == NoDate)
      && (reportsData != map[] ==> exists m :: IsGreatest(m, reportsData.Keys) && lastUpdate == FormatDate(m))
    }

    /** The server panel shows the figures of `reportsData` and the connection flag. */
    ghost predicate ServerInfoShown()
      reads this
    {
      ServerFiguresShown() && serverStatus == (if isConnected then Running else ConnectionFailed)
    }

    /** The list and the content area as `renderDateList()` leaves them for `reportsData`. */
    ghost predicate DateListShown(oldDate: Option<string>, oldContent: Pane)
      reads this
    {
      && (reportsData == map[] ==>
            dateList == [NoDataNotice] && active == [false] && currentDate == oldDate && content == oldContent)
      && (reportsData != map[] ==>
            && ListsNewestFirst(reportsData, dateList)
            && currentDate.Some? && IsGreatest(currentDate.value, reportsData.Keys)
            && OnlyActive(0)
            && content == ReportListFor(reportsData, currentDate.value))
    }

    /** The page as loaded, before `initializeApp`. */
    constructor ()
      ensures Valid()
      ensures State() == PageState(map[], None, false, "", "status", [], [], Blank, {}, [], 0, "", "", RefreshIdle, false)
    {
      reportsData, currentDate, isConnected := map[], None, false;
      statusText, statusClass := "", "status";
      dateList, active, content := [], [], Blank;
      openModals, dateModalContent := {}, [];
      reportCount, lastUpdate, serverStatus := 0, "", "";
      refreshLabel, refreshDisabled := RefreshIdle, false;
    }

    /** `updateStatus(message, connected)`. */
    method UpdateStatus(message: string, connected: bool)
      modifies this
      ensures State() == old(State()).(statusText := message,
        statusClass := if connected then "status connected" else "status", isConnected := connected)
    {
      statusText := message;
      statusClass := if connected then "status connected" else "status";
      isConnected := connected;
    }

    /** `Object.keys(reportsData).sort().reverse()`. */
    method NewestFirst() returns (dates: seq<string>)
      ensures IsNewestFirst(dates, reportsData.Keys)
      ensures forall i :: 0 <= i < |dates| ==> dates[i] in reportsData
    {
      var keys := ObjectKeys(reportsData);
      var sorted := SortBy(keys, Itself, false);
      ReverseStrictlyOrdered(sorted, Itself);
      dates := Reverse(sorted);
      ReverseMembers(sorted);
      forall d ensures d in dates <==> d in keys {
        assert d in sorted <==> d in multiset(sorted);
        assert d in keys <==> d in multiset(keys);
      }
      assert Elements(dates) == Elements(keys);
      forall i | 0 <= i < |dates| ensures dates[i] in reportsData {
        assert dates[i] in Elements(dates);
      }
    }

    /** `renderReportList(date)`. */
    method RenderReportList(date: string)
      modifies this
      ensures State() == old(State()).(content := ReportListFor(reportsData, date))
    {
      content := ReportListFor(reportsData, date);
    }

    /** `selectDate(date, element)`, the element being the date item at `index`. */
    method SelectDate(date: string, index: nat)
      requires Valid() && index < |dateList|
      modifies this
      ensures Valid() && OnlyActive(index)
      ensures currentDate == Some(date) && content == ReportListFor(reportsData, date)
      ensures State() == old(State()).(active := active, currentDate := currentDate, content := content)
    {
      var i := 0;
      while i < |active|
        invariant i <= |active| == |dateList|
        invariant forall j :: 0 <= j < i ==> !active[j]
        invariant State() == old(State()).(active := active)
      {
        active := active[i := false];
        i := i + 1;
      }
      active := active[index := true];
      currentDate := Some(date);
      RenderReportList(date);
    }

    /**
     * `renderDateList()`: one item per key, newest first, then the newest
     * is selected; with no data the list shows a notice and nothing is
     * selected.
     */
    method RenderDateList()
      requires Valid()
      modifies this
      ensures Valid()
      ensures reportsData == map[] ==> State() == old(State()).(dateList := [NoDataNotice], active := [false])
      ensures reportsData != map[] ==>
        && ListsNewestFirst(reportsData, dateList)
        && currentDate.Some? && IsGreatest(currentDate.value, reportsData.Keys)
        && OnlyActive(0)
        && content == ReportListFor(reportsData, currentDate.value)
        && State() == old(State()).(dateList := dateList, active := active, currentDate := currentDate, content := content)
    {
      var dates := NewestFirst();
      if |dates| == 0 {
        assert reportsData.Keys == {};
        dateList, active := [NoDataNotice], [false];
        return;
      }
      AppendDateItems(dates);
      NewestFirstHead(dates, reportsData.Keys);
      SelectDate(dates[0], 0);
      assert ListsNewestFirst(reportsData, dateList);
    }

    /** The list is emptied, then one item is appended per key of `dates`, none of them active. */
    method AppendDateItems(dates: seq<string>)
      requires forall i :: 0 <= i < |dates| ==> dates[i] in reportsData
      modifies this
      ensures State() == old(State()).(dateList := dateList, active := active)
      ensures dateList == Entries(reportsData, dates) && active == seq(|dates|, _ => false)
    {
      dateList, active := [], [];
      for k := 0 to |dates|
        invariant State() == old(State()).(dateList := dateList, active := active)
        invariant forall i :: 0 <= i < |dates| ==> dates[i] in reportsData
        invariant dateList == Entries(reportsData, dates[..k]) && active == seq(k, _ => false)
      {
        assert dates[..k + 1][..k] == dates[..k];
        dateList := dateList + [DateEntry(dates[k], FormatDate(dates[k]), |reportsData[dates[k]]|)];
        active := active + [false];
      }
      assert dates[..|dates|] == dates;
    }

    /** `showErrorMessage(message)`. */
    method ShowErrorMessage(message: string)
      modifies this
      ensures State() == old(State()).(content := ErrorNotice(message))
    {
      content := ErrorNotice(message);
    }

    /**
     * `updateServerInfo()`: the number of reports over all keys, the
     * greatest key as a label (`无` without keys), and the connection flag
     * in words. The server clock is not modelled.
     */
    method UpdateServerInfo()
      modifies this
      ensures ServerInfoShown()
      ensures State() == old(State()).(reportCount := reportCount, lastUpdate := lastUpdate, serverStatus := serverStatus)
    {
      var total := TotalCards(reportsData);
      var latest := LatestLabel(reportsData);
      reportCount := total;
      lastUpdate := latest;
      serverStatus := if isConnected then Running else ConnectionFailed;
    }

    /** `updateDateModalContent()`: the modal lists the keys newest first. */
    method UpdateDateModalContent()
      modifies this
      ensures ListsNewestFirst(reportsData, dateModalContent)
      ensures State() == old(State()).(dateModalContent := dateModalContent)
    {
      var dates := NewestFirst();
      dateModalContent := Entries(reportsData, dates);
    }

    /** `openModal(id)`: the date modal is filled first, the server panel refreshed. */
    method OpenModal(id: string)
      modifies this
      ensures id !in {DateModal, ServerModal} ==> State() == old(State()).(openModals := old(openModals) + {id})
      ensures id == DateModal ==>
        && ListsNewestFirst(reportsData, dateModalContent)
        && State() == old(State()).(openModals := old(openModals) + {id}, dateModalContent := dateModalContent)
      ensures id == ServerModal ==>
        && ServerInfoShown()
        && State() == old(State()).(openModals := old(openModals) + {id},
             reportCount := reportCount, lastUpdate := lastUpdate, serverStatus := serverStatus)
    {
      openModals := openModals + {id};
      if id == DateModal {
        UpdateDateModalContent();
      } else if id == ServerModal {
        UpdateServerInfo();
      }
    }

    /** `closeModal(id)`. */
    method CloseModal(id: string)
      modifies this
      ensures State() == old(State()).(openModals := old(openModals) - {id})
    {
      openModals := openModals - {id};
    }

    /**
     * `selectDateFromModal(date)`: closes the date modal and selects the
     * date item whose place in the newest-first order is that of `date`,
     * exactly as a click on that item does. The source recomputes the
     * order for every item; it is computed once here, `reportsData` being
     * the same throughout.
     */
    method SelectDateFromModal(date: string)
      requires Valid()
      modifies this
      ensures Valid()
      ensures forall k :: 0 <= k < |dateList| && ListsNewestFirst(reportsData, dateList) && dateList[k].DateEntry? && dateList[k].date == date ==>
        && OnlyActive(k) && currentDate == Some(date) && content == ReportListFor(reportsData, date)
        && State() == old(State()).(openModals := old(openModals) - {DateModal}, active := active, currentDate := currentDate, content := content)
      ensures date !in reportsData ==> State() == old(State()).(openModals := old(openModals) - {DateModal})
    {
      CloseModal(DateModal);
      ghost var closed := State();
      var dates := NewestFirst();
      DistinctOrdered(dates, Itself, true);
      ghost var pos := IndexIn(dates, date);
      for index := 0 to |dateList|
        invariant Valid() && State() == closed.(active := active, currentDate := currentDate, content := content)
        invariant pos.Some? && pos.value < index ==>
          OnlyActive(pos.value) && currentDate == Some(date) && content == ReportListFor(reportsData, date)
        invariant !(pos.Some? && pos.value < index) ==> State() == closed
      {
        if index < |dates| && dates[index] == date {
          assert pos == Some(index);
          SelectDate(date, index);
        }
      }
      ModalTarget(dates, date, pos);
    }

    /** Where the date modal's choice lands in the list. */
    lemma ModalTarget(dates: seq<string>, date: string, pos: Option<nat>)
      requires IsNewestFirst(dates, reportsData.Keys) && pos == IndexIn(dates, date)
      requires forall i, j :: 0 <= i < j < |dates| ==> dates[i] != dates[j]
      ensures date !in reportsData ==> pos.None?
      ensures forall k :: 0 <= k < |dateList| && ListsNewestFirst(reportsData, dateList) && dateList[k].DateEntry? && dateList[k].date == date ==>
        pos == Some(k)
    {
      if pos.Some? {
        assert dates[pos.value] in Elements(dates);
      }
      forall k | 0 <= k < |dateList| && ListsNewestFirst(reportsData, dateList) && dateList[k].DateEntry? && dateList[k].date == date
        ensures pos == Some(k)
      {
        EntryAt(reportsData, dates, dateList, k);
      }
    }

    /**
     * `initializeApp()` with `loaded` the data it takes (`None`: the
     * loading throws). On success the page is connected, the list is
     * rendered with the newest date selected, and the server panel says
     * `运行中`; on failure the page is disconnected and shows an error.
     */
    method InitializeApp(loaded: Option<map<string, seq<Card>>>)
      requires Valid()
      modifies this
      ensures loaded.Some? ==>
        State() == old(State()).(reportsData := loaded.value, isConnected := true,
          statusText := "🟢 服务器已连接", statusClass := "status connected",
          dateList := dateList, active := active, currentDate := currentDate, content := content,
          reportCount := reportCount, lastUpdate := lastUpdate, serverStatus := serverStatus)
      ensures loaded.None? ==>
        State() == old(State()).(isConnected := false, statusText := "🔴 连接失败", statusClass := "status",
          content := ErrorNotice("无法连接到服务器，请检查网络连接或稍后重试。"))
      ensures Valid()
      ensures loaded.Some? ==>
        DateListShown(old(currentDate), old(content)) && ServerInfoShown() && serverStatus == Running
    {
      UpdateStatus("⚪ 连接服务器中...", false);
      if loaded.Some? {
        reportsData := loaded.value;
        UpdateStatus("🟢 服务器已连接", true);
        RenderDateList();
        UpdateServerInfo();
      } else {
        UpdateStatus("🔴 连接失败", false);
        ShowErrorMessage("无法连接到服务器，请检查网络连接或稍后重试。");
      }
    }

    /**
     * `refreshData()` with `loaded` the data it takes (`None`: the loading
     * throws). The button ends enabled and labelled `🔄 刷新` either way.
     * The server panel is updated before the status, so its connection
     * word is the one from before the refresh.
     */
    method RefreshData(loaded: Option<map<string, seq<Card>>>)
      requires Valid()
      modifies this
      ensures loaded.Some? ==>
        State() == old(State()).(reportsData := loaded.value, isConnected := true,
          statusText := "🟢 数据已刷新", statusClass := "status connected",
          dateList := dateList, active := active, currentDate := currentDate, content := content,
          reportCount := reportCount, lastUpdate := lastUpdate, serverStatus := serverStatus,
          refreshLabel := RefreshIdle, refreshDisabled := false)
      ensures loaded.None? ==>
        State() == old(State()).(isConnected := false, statusText := "🔴 刷新失败", statusClass := "status",
          content := ErrorNotice("刷新数据失败，请稍后重试。"), refreshLabel := RefreshIdle, refreshDisabled := false)
      ensures Valid()
      ensures loaded.Some? ==>
        && DateListShown(old(currentDate), old(content)) && ServerFiguresShown()
        && serverStatus == (if old(isConnected) then Running else ConnectionFailed)
    {
      refreshLabel := RefreshBusy;
      refreshDisabled := true;
      if loaded.Some? {
        reportsData := loaded.value;
        RenderDateList();
        UpdateServerInfo();
        UpdateStatus("🟢 数据已刷新", true);
      } else {
        UpdateStatus("🔴 刷新失败", false);
        ShowErrorMessage("刷新数据失败，请稍后重试。");
      }
      refreshLabel := RefreshIdle;
      refreshDisabled := false;
    }
  }
}
