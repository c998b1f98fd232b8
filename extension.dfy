/** The DashClock extension itself: one update request decides whether to hide,
    whether the poll is due, fetches and renders the quotes, and schedules the
    next poll around the market's opening hours. */
module Portfolio {
  import opened JavaLang
  import opened Symbols
  import opened Quotes
  import opened Ranking
  import opened Render

  const START_POLLING_HOUR: int := 8
  const STOP_POLLING_HOUR: int := 17
  /** Seconds east of UTC of the market clock (EST). The clock reading enters the
      model as `currentEpoch`, already shifted by this offset. */
  const DEFAULT_TIMEZONE_OFFSET: int := -18000
  const SECONDS_PER_DAY: int := 86400

  /** Why DashClock asks for an update; only two reasons are told apart. */
  datatype Reason = Manual | SettingsChanged | OtherReason

  /** The stored preferences; a missing string preference is None. */
  datatype Prefs = Prefs(
    symTitle: Option<string>, syms: Option<string>, symOrder: Option<string>,
    clickURL: Option<string>, clickReverse: bool, hideOnWeekends: bool, showPrice: bool)

  /** What the quote server returns for a query: no body at all, the body's
      lines, or a failure somewhere on the way (connection, reading, closing). */
  datatype FeedResponse = NoEntity | Lines(lines: seq<string>) | Failed

  /** Everything outside the extension: the feed, number parsing
      (Double.parseDouble, in hundredths) and the two string-array resources. */
  datatype Env = Env(
    fetch: string -> FeedResponse, parse: string -> Option<int>,
    titleValues: seq<string>, shortNames: seq<string>)

  /** The published ExtensionData; an unset field is None. */
  datatype ExtensionData = ExtensionData(
    visible: bool, status: Option<string>, expandedTitle: Option<string>,
    expandedBody: Option<string>, clickUri: Option<string>)

  const Hidden: ExtensionData := ExtensionData(false, None, None, None, None)

  /** The click target: the configured URL unless reverse-on-click is enabled. */
  function ClickUri(prefs: Prefs): (r: Option<string>)
    ensures r.Some? <==> !prefs.clickReverse && !IsNullOrEmpty(prefs.clickURL)
    ensures r.Some? ==> r == prefs.clickURL
  {
    if !prefs.clickReverse && !IsNullOrEmpty(prefs.clickURL) then prefs.clickURL else None
  }

  /** The data before any quote is known. */
  function Defaults(prefs: Prefs): ExtensionData
  {
    ExtensionData(true, Some("[No Data]"), Some("[No data available]"), Some(""), ClickUri(prefs))
  }

  /** The symbols requested: the title and the list, normalised together, unlimited. */
  function Query(prefs: Prefs): string
  {
    Join(Normalized(StringOf(prefs.symTitle) + "," + StringOf(prefs.syms), 0), ",")
  }

  // ---------------------------------------------------------------------------
  // fetchSymbols

  /** The header: the short name of the master symbol and its data. */
  function HeaderTitle(m: MasterInfo, env: Env): string
  {
    ShortName(m.symbol, env.titleValues, env.shortNames) + " [" + MasterData(m) + "]"
  }

  /** The body line, set when some listed record is valid. */
  function WithBody(ed: ExtensionData, list: seq<SymbolInfo>, symOrder: Option<string>,
                    reverseMode: bool, showPrice: bool): ExtensionData
  {
    if |list| - ErrorCount(list) > 0 then ed.(expandedBody := Some(Body(Rank(list, symOrder, reverseMode), showPrice)))
    else ed
  }

  /** The status and header, set when there is a master record. */
  function WithMaster(ed: ExtensionData, master: Option<MasterInfo>, env: Env): ExtensionData
  {
    match master
    case None => ed
    case Some(m) => ed.(status := Some(MasterData(m)), expandedTitle := Some(HeaderTitle(m, env)))
  }

  /** The data once the feed's lines are in. */
  function Filled(ed: ExtensionData, lines: seq<string>, symOrder: Option<string>, symTitle: string,
                  reverseMode: bool, showPrice: bool, env: Env): ExtensionData
  {
    var rows := Rows(lines, env.parse);
    WithMaster(WithBody(ed, Listed(rows, symTitle), symOrder, reverseMode, showPrice), Master(rows, symTitle), env)
  }

  /** fetchSymbols as a function: whether the update may be published, and the data. */
  function FetchOutcome(ed: ExtensionData, syms: string, symOrder: Option<string>, symTitle: Option<string>,
                        reverseMode: bool, showPrice: bool, env: Env): (bool, ExtensionData)
  {
    if syms == "" || IsNullOrEmpty(symTitle) then (false, ed)
    else match env.fetch(syms)
      case Failed => (false, ed)
      case NoEntity => (true, ed)
      case Lines(lines) => (true, Filled(ed, lines, symOrder, symTitle.value, reverseMode, showPrice, env))
  }

  method FetchSymbols(ed: ExtensionData, syms: string, symOrder: Option<string>, symTitle: Option<string>,
                      reverseMode: bool, showPrice: bool, env: Env)
    returns (ret: bool, edOut: ExtensionData)
    ensures (ret, edOut) == FetchOutcome(ed, syms, symOrder, symTitle, reverseMode, showPrice, env)
  {
    if syms == "" || IsNullOrEmpty(symTitle) {
      return false, ed;
    }
    var title := symTitle.value;
    var lines: seq<string>;
    match env.fetch(syms) {
      case Failed => return false, ed;
      case NoEntity => return true, ed;
      case Lines(ls) => lines := ls;
    }
    assert env.fetch(syms) == Lines(lines);
    edOut := FillFromFeed(ed, lines, symOrder, title, reverseMode, showPrice, env);
    ret := true;
  }

  /** The part of fetchSymbols that reads the feed's lines into the data. */
  method FillFromFeed(ed: ExtensionData, lines: seq<string>, symOrder: Option<string>, title: string,
                      reverseMode: bool, showPrice: bool, env: Env)
    returns (edOut: ExtensionData)
    ensures edOut == Filled(ed, lines, symOrder, title, reverseMode, showPrice, env)
  {
    ghost var rows := Rows(lines, env.parse);
    var symbolInfo, siMaster, allChange, allPercent, allErrors := ReadFeed(lines, title, env.parse);
    var totalValidSymbols := |symbolInfo| - allErrors;
    var master := PickMaster(title, siMaster, allChange, allPercent, totalValidSymbols, rows);
    edOut := ed;
    if totalValidSymbols > 0 {
      edOut := ShowBody(edOut, symbolInfo, symOrder, reverseMode, showPrice);
    }
    assert edOut == WithBody(ed, Listed(rows, title), symOrder, reverseMode, showPrice);
    edOut := ShowMaster(edOut, master, env);
  }

  /** The master record once the loop is done: the portfolio average when the
      title is the pseudo-symbol and some listed record is valid, otherwise the
      last title row of the feed. */
  method PickMaster(title: string, siMaster: Option<SymbolInfo>, allChange: int, allPercent: int,
                    totalValidSymbols: int, ghost rows: seq<SymbolInfo>)
    returns (master: Option<MasterInfo>)
    requires siMaster == LastMatch(rows, title)
    requires totalValidSymbols == |Listed(rows, title)| - ErrorCount(Listed(rows, title))
    requires allChange == SumChange(Listed(rows, title)) && allPercent == SumPercent(Listed(rows, title))
    ensures master == Master(rows, title)
  {
    master := if siMaster.Some? then Some(FromRow(siMaster.value)) else None;
    if totalValidSymbols > 0 && title == CUSTOM_INDEX {
      master := Some(MasterInfo(CUSTOM_INDEX, allChange as real / totalValidSymbols as real,
                                allPercent as real / totalValidSymbols as real, false));
    }
  }

  /** The body line of fetchSymbols: the records ranked, then rendered. */
  method ShowBody(ed: ExtensionData, symbolInfo: seq<SymbolInfo>, symOrder: Option<string>,
                  reverseMode: bool, showPrice: bool) returns (edOut: ExtensionData)
    ensures edOut == ed.(expandedBody := Some(Body(Rank(symbolInfo, symOrder, reverseMode), showPrice)))
  {
    var ranked := Rank(symbolInfo, symOrder, reverseMode);
    var bodyLine := BuildBody(ranked, showPrice);
    edOut := ed.(expandedBody := Some(bodyLine));
  }

  /** The status and header lines of fetchSymbols, from the master record. */
  method ShowMaster(ed: ExtensionData, master: Option<MasterInfo>, env: Env) returns (edOut: ExtensionData)
    ensures edOut == WithMaster(ed, master, env)
  {
    edOut := ed;
    if master.Some? {
      var masterSymbolData := MasterData(master.value);
      edOut := edOut.(status := Some(masterSymbolData),
                      expandedTitle := Some(ShortName(master.value.symbol, env.titleValues, env.shortNames) + " [" + masterSymbolData + "]"));
    }
  }

  /** The update is withheld exactly when there is nothing to query, no title,
      or the feed failed; and fetching never touches visibility or the click target. */
  lemma FetchRefusal(ed: ExtensionData, syms: string, symOrder: Option<string>, symTitle: Option<string>,
                     reverseMode: bool, showPrice: bool, env: Env)
    ensures var (ok, out) := FetchOutcome(ed, syms, symOrder, symTitle, reverseMode, showPrice, env);
      (!ok <==> syms == "" || IsNullOrEmpty(symTitle) || env.fetch(syms).Failed?) &&
      out.visible == ed.visible && out.clickUri == ed.clickUri &&
      (!ok || env.fetch(syms).NoEntity? ==> out == ed)
  {
    if syms != "" && !IsNullOrEmpty(symTitle) && env.fetch(syms).Lines? {
      FilledKeeps(ed, env.fetch(syms).lines, symOrder, symTitle.value, reverseMode, showPrice, env);
    }
  }

  lemma FilledKeeps(ed: ExtensionData, lines: seq<string>, symOrder: Option<string>, symTitle: string,
                    reverseMode: bool, showPrice: bool, env: Env)
    ensures var out := Filled(ed, lines, symOrder, symTitle, reverseMode, showPrice, env);
      out.visible == ed.visible && out.clickUri == ed.clickUri
  {
    var rows := Rows(lines, env.parse);
    var b := WithBody(ed, Listed(rows, symTitle), symOrder, reverseMode, showPrice);
    assert b.visible == ed.visible && b.clickUri == ed.clickUri;
  }

  /** Without a valid listed record the body keeps its default, and no average
      is built: the master is the feed's own row for the title, if any. */
  lemma NoValidRecord(ed: ExtensionData, lines: seq<string>, symOrder: Option<string>, symTitle: string,
                      reverseMode: bool, showPrice: bool, env: Env)
    requires var list := Listed(Rows(lines, env.parse), symTitle);
      |list| - ErrorCount(list) == 0
    ensures var out := Filled(ed, lines, symOrder, symTitle, reverseMode, showPrice, env);
      var last := LastMatch(Rows(lines, env.parse), symTitle);
      out.expandedBody == ed.expandedBody &&
      (last.None? ==> out.status == ed.status && out.expandedTitle == ed.expandedTitle) &&
      (last.Some? ==> out.status == Some(MasterData(FromRow(last.value))))
  {
    var rows := Rows(lines, env.parse);
    var b := WithBody(ed, Listed(rows, symTitle), symOrder, reverseMode, showPrice);
    assert b == ed;
    assert Master(rows, symTitle) == if LastMatch(rows, symTitle).Some? then Some(FromRow(LastMatch(rows, symTitle).value)) else None;
  }

  /** With the portfolio pseudo-symbol as title and a valid listed record, the
      status shows the average percent, rounded to hundredths, hence between the
      smallest and the largest valid percent (give or take the rounding). */
  lemma AverageStatus(ed: ExtensionData, lines: seq<string>, symOrder: Option<string>,
                      reverseMode: bool, showPrice: bool, env: Env, lo: int, hi: int)
    requires var list := Listed(Rows(lines, env.parse), CUSTOM_INDEX);
      |list| - ErrorCount(list) > 0
    requires var list := Listed(Rows(lines, env.parse), CUSTOM_INDEX);
      forall k :: 0 <= k < |list| && !list[k].error ==> lo <= list[k].percent <= hi
    ensures var st := Filled(ed, lines, symOrder, CUSTOM_INDEX, reverseMode, showPrice, env).status;
      st.Some? && ReadData(st.value, true).Some? &&
      lo as real - 0.5 <= ReadData(st.value, true).value as real <= hi as real + 0.5
    ensures var list := Listed(Rows(lines, env.parse), CUSTOM_INDEX);
      var mean := SumPercent(list) as real / (|list| - ErrorCount(list)) as real;
      var st := Filled(ed, lines, symOrder, CUSTOM_INDEX, reverseMode, showPrice, env).status;
      mean - 0.5 <= ReadData(st.value, true).value as real <= mean + 0.5
  {
    var rows := Rows(lines, env.parse);
    AverageWithinRange(rows, lo, hi);
    var m := Master(rows, CUSTOM_INDEX).value;
    MasterDataRounds(m);
    var list := Listed(rows, CUSTOM_INDEX);
    var b := WithBody(ed, list, symOrder, reverseMode, showPrice);
    assert Filled(ed, lines, symOrder, CUSTOM_INDEX, reverseMode, showPrice, env) == WithMaster(b, Some(m), env);
  }

  /** With any other title, the status shows the feed's last row for that symbol
      exactly as a percent-mode body item would, and stays "[No Data]"-style
      default when the feed has no such row. */
  lemma TitleStatus(ed: ExtensionData, lines: seq<string>, symOrder: Option<string>, symTitle: string,
                    reverseMode: bool, showPrice: bool, env: Env)
    requires symTitle != CUSTOM_INDEX
    ensures var out := Filled(ed, lines, symOrder, symTitle, reverseMode, showPrice, env);
      var last := LastMatch(Rows(lines, env.parse), symTitle);
      (last.None? ==> out.status == ed.status && out.expandedTitle == ed.expandedTitle) &&
      (last.Some? ==> out.status == Some(SymbolData(last.value, false)) && last.value.symbol == symTitle)
  {
    var last := LastMatch(Rows(lines, env.parse), symTitle);
    LastMatchIsLast(Rows(lines, env.parse), symTitle);
    if last.Some? {
      MasterDataOfRow(last.value);
    }
  }

  // ---------------------------------------------------------------------------
  // Scheduling

  /** A second of the market clock at which the market opens (08:00). */
  predicate IsOpening(t: int)
  {
    t % SECONDS_PER_DAY == START_POLLING_HOUR * 3600
  }

  /** The hour gate: polling pauses on weekend days and outside 08:00 to 17:00. */
  predicate OutsideHours(currentEpoch: int, isWeekendDay: bool)
  {
    var hours := JavaDiv(JavaRem(currentEpoch, SECONDS_PER_DAY), 3600);
    isWeekendDay || hours < START_POLLING_HOUR || STOP_POLLING_HOUR <= hours
  }

  /** The next-epoch update after a published poll, as the source writes it:
      today's 08:00, moved to tomorrow only from 17:00 on. */
  function NextEpochAsWritten(nextEpoch: int, currentEpoch: int, isWeekendDay: bool): int
  {
    var currentDailySeconds := JavaRem(currentEpoch, SECONDS_PER_DAY);
    var currentDailyHours := JavaDiv(currentDailySeconds, 3600);
    if OutsideHours(currentEpoch, isWeekendDay) then
      currentEpoch - currentDailySeconds + START_POLLING_HOUR * 3600 +
        (if STOP_POLLING_HOUR <= currentDailyHours then SECONDS_PER_DAY else 0)
    else nextEpoch
  }

  /** On a weekend day between 08:00 and 17:00 the schedule as written lands on
      this morning's 08:00, which has passed, so the poll is never paused. */
  lemma WeekendDaytimeNotPaused()
    ensures var cur := 2 * SECONDS_PER_DAY + 10 * 3600;
      OutsideHours(cur, true) && NextEpochAsWritten(0, cur, true) <= cur
  {
  }

  /** The corrected schedule: the next 08:00 still ahead, i.e. tomorrow once
      today's opening has passed. */
  function NextEpochAfterPoll(nextEpoch: int, currentEpoch: int, isWeekendDay: bool): int
  {
    var currentDailySeconds := JavaRem(currentEpoch, SECONDS_PER_DAY);
    var currentDailyHours := JavaDiv(currentDailySeconds, 3600);
    if OutsideHours(currentEpoch, isWeekendDay) then
      currentEpoch - currentDailySeconds + START_POLLING_HOUR * 3600 +
        (if START_POLLING_HOUR <= currentDailyHours then SECONDS_PER_DAY else 0)
    else nextEpoch
  }

  /** On weekdays the correction changes nothing. */
  lemma CorrectionOnlyOnWeekends(nextEpoch: int, currentEpoch: int)
    requires currentEpoch >= 0
    ensures NextEpochAfterPoll(nextEpoch, currentEpoch, false) == NextEpochAsWritten(nextEpoch, currentEpoch, false)
  {
  }

  /** Where the schedule as written differs from the corrected one, it has
      already passed: so whenever it lies ahead, the two agree. */
  lemma AsWrittenWhenAhead(nextEpoch: int, currentEpoch: int, isWeekendDay: bool)
    requires NextEpochAsWritten(nextEpoch, currentEpoch, isWeekendDay) > currentEpoch
    ensures NextEpochAsWritten(nextEpoch, currentEpoch, isWeekendDay) == NextEpochAfterPoll(nextEpoch, currentEpoch, isWeekendDay)
  {
  }

  /** The schedule as written, outside market hours: when it lies ahead it is the
      first opening after now; it fails to lie ahead exactly on a weekend day
      between 08:00 and 17:00. */
  lemma NextPollAsWritten(nextEpoch: int, currentEpoch: int, isWeekendDay: bool)
    requires currentEpoch >= 0 && OutsideHours(currentEpoch, isWeekendDay)
    ensures var next := NextEpochAsWritten(nextEpoch, currentEpoch, isWeekendDay);
      var hours := (currentEpoch % SECONDS_PER_DAY) / 3600;
      (next <= currentEpoch <==> isWeekendDay && START_POLLING_HOUR <= hours < STOP_POLLING_HOUR) &&
      (next > currentEpoch ==>
        next <= currentEpoch + SECONDS_PER_DAY && IsOpening(next) &&
        forall t :: currentEpoch < t < next ==> !IsOpening(t))
  {
    var next := NextEpochAsWritten(nextEpoch, currentEpoch, isWeekendDay);
    var secs := currentEpoch % SECONDS_PER_DAY;
    var hours := secs / 3600;
    assert JavaRem(currentEpoch, SECONDS_PER_DAY) == secs;
    assert JavaDiv(secs, 3600) == hours;
    assert START_POLLING_HOUR <= hours <==> START_POLLING_HOUR * 3600 <= secs;
    assert hours < STOP_POLLING_HOUR <==> secs < STOP_POLLING_HOUR * 3600;
    if next > currentEpoch {
      AsWrittenWhenAhead(nextEpoch, currentEpoch, isWeekendDay);
      NextPollIsNextOpening(nextEpoch, currentEpoch, isWeekendDay);
    }
  }

  /** Outside market hours the next poll is the first opening strictly after now;
      during weekday market hours the schedule is left as it was. */
  lemma NextPollIsNextOpening(nextEpoch: int, currentEpoch: int, isWeekendDay: bool)
    requires currentEpoch >= 0
    ensures var next := NextEpochAfterPoll(nextEpoch, currentEpoch, isWeekendDay);
      if OutsideHours(currentEpoch, isWeekendDay) then
        currentEpoch < next <= currentEpoch + SECONDS_PER_DAY && IsOpening(next) &&
        forall t :: currentEpoch < t < next ==> !IsOpening(t)
      else next == nextEpoch
  {
    var secs := currentEpoch % SECONDS_PER_DAY;
    var day := currentEpoch - secs;
    assert day % SECONDS_PER_DAY == 0;
    if OutsideHours(currentEpoch, isWeekendDay) {
      var next := NextEpochAfterPoll(nextEpoch, currentEpoch, isWeekendDay);
      forall t | currentEpoch < t < next ensures !IsOpening(t) {
        OpeningsOfDay(day, t);
      }
      OpeningsOfDay(day, next);
    }
  }

  /** Within the two days from midnight `day`, the openings are 08:00 of each. */
  lemma OpeningsOfDay(day: int, t: int)
    requires day % SECONDS_PER_DAY == 0 && day <= t < day + 2 * SECONDS_PER_DAY
    ensures IsOpening(t) <==> t == day + 28800 || t == day + SECONDS_PER_DAY + 28800
  {
    var k := day / SECONDS_PER_DAY;
    assert day == k * SECONDS_PER_DAY;
    if t < day + SECONDS_PER_DAY {
      assert t % SECONDS_PER_DAY == t - day;
    } else {
      assert t % SECONDS_PER_DAY == t - day - SECONDS_PER_DAY;
    }
  }

  // ---------------------------------------------------------------------------
  // onUpdateData

  /** reverseMode after the reason is taken into account: a manual update
      toggles it when reverse-on-click is enabled, a settings change resets it. */
  function NextReverseMode(reason: Reason, clickReverse: bool, reverseMode: bool): (r: bool)
    ensures reason == Manual ==> (r <==> clickReverse && !reverseMode)
    ensures reason == SettingsChanged ==> !r
    ensures reason == OtherReason ==> r == reverseMode
  {
    if reason == Manual || reason == SettingsChanged then clickReverse && reason != SettingsChanged && !reverseMode
    else reverseMode
  }

  /** What one update publishes and the scheduler state it leaves. */
  datatype Outcome = Outcome(published: Option<ExtensionData>, nextEpoch: int, reverseMode: bool)

  function UpdateOutcome(nextEpoch: int, reverseMode: bool, reason: Reason, prefs: Prefs,
                         isWeekendDay: bool, currentEpoch: int, env: Env): Outcome
  {
    if prefs.hideOnWeekends && isWeekendDay then Outcome(Some(Hidden), nextEpoch, reverseMode)
    else
      var forced := reason == Manual || reason == SettingsChanged;
      var epoch := if forced then 0 else nextEpoch;
      var rev := NextReverseMode(reason, prefs.clickReverse, reverseMode);
      if epoch > currentEpoch then Outcome(None, epoch, rev)
      else
        AfterFetch(FetchOutcome(Defaults(prefs), Query(prefs), prefs.symOrder, prefs.symTitle, rev, prefs.showPrice, env),
                   epoch, currentEpoch, isWeekendDay, rev)
  }

  /** Publishing the fetched data, and the schedule, once the poll was made. */
  function AfterFetch(fetched: (bool, ExtensionData), epoch: int, currentEpoch: int, isWeekendDay: bool,
                      reverseMode: bool): Outcome
  {
    if fetched.0 then Outcome(Some(fetched.1), NextEpochAsWritten(epoch, currentEpoch, isWeekendDay), reverseMode)
    else Outcome(None, epoch, reverseMode)
  }

  /** Hiding on weekends publishes an invisible record and changes nothing else. */
  lemma HiddenOnWeekends(nextEpoch: int, reverseMode: bool, reason: Reason, prefs: Prefs,
                         currentEpoch: int, env: Env)
    requires prefs.hideOnWeekends
    ensures var o := UpdateOutcome(nextEpoch, reverseMode, reason, prefs, true, currentEpoch, env);
      o.published == Some(Hidden) && !o.published.value.visible &&
      o.nextEpoch == nextEpoch && o.reverseMode == reverseMode
  {
  }

  /** Something visible is published exactly when the poll is due (or forced) and
      the fetch succeeds; the published data are the fetched ones and the next
      poll is then scheduled. */
  lemma PublishedIffFetched(nextEpoch: int, reverseMode: bool, reason: Reason, prefs: Prefs,
                            isWeekendDay: bool, currentEpoch: int, env: Env)
    requires !(prefs.hideOnWeekends && isWeekendDay)
    ensures var o := UpdateOutcome(nextEpoch, reverseMode, reason, prefs, isWeekendDay, currentEpoch, env);
      var epoch := if reason == Manual || reason == SettingsChanged then 0 else nextEpoch;
      var f := FetchOutcome(Defaults(prefs), Query(prefs), prefs.symOrder, prefs.symTitle, o.reverseMode, prefs.showPrice, env);
      (o.published.Some? <==> epoch <= currentEpoch && f.0) &&
      (o.published.Some? ==>
        o.published.value == f.1 && o.published.value.visible &&
        o.nextEpoch == NextEpochAsWritten(epoch, currentEpoch, isWeekendDay)) &&
      (o.published.None? ==> o.nextEpoch == epoch)
  {
    FetchRefusal(Defaults(prefs), Query(prefs), prefs.symOrder, prefs.symTitle,
                 NextReverseMode(reason, prefs.clickReverse, reverseMode), prefs.showPrice, env);
  }

  /** After a poll published outside market hours, every periodic update before
      the scheduled poll publishes nothing and keeps the schedule, and the
      scheduled poll is the next 08:00. (On a weekend day between 08:00 and
      17:00 the scheduled poll has already passed, so there is no such update.) */
  lemma QuietUntilOpening(nextEpoch: int, reverseMode: bool, reason: Reason, prefs: Prefs,
                          isWeekendDay: bool, currentEpoch: int, env: Env,
                          prefs2: Prefs, isWeekendDay2: bool, later: int, env2: Env)
    requires currentEpoch >= 0 && OutsideHours(currentEpoch, isWeekendDay)
    requires !(prefs2.hideOnWeekends && isWeekendDay2)
    requires var o := UpdateOutcome(nextEpoch, reverseMode, reason, prefs, isWeekendDay, currentEpoch, env);
      o.published.Some? && o.published.value.visible && currentEpoch <= later < o.nextEpoch
    ensures var o := UpdateOutcome(nextEpoch, reverseMode, reason, prefs, isWeekendDay, currentEpoch, env);
      var o2 := UpdateOutcome(o.nextEpoch, o.reverseMode, OtherReason, prefs2, isWeekendDay2, later, env2);
      o2.published.None? && o2.nextEpoch == o.nextEpoch && o2.reverseMode == o.reverseMode &&
      IsOpening(o.nextEpoch) && forall t :: currentEpoch < t < o.nextEpoch ==> !IsOpening(t)
  {
    var o := UpdateOutcome(nextEpoch, reverseMode, reason, prefs, isWeekendDay, currentEpoch, env);
    PublishedIffFetched(nextEpoch, reverseMode, reason, prefs, isWeekendDay, currentEpoch, env);
    var epoch := if reason == Manual || reason == SettingsChanged then 0 else nextEpoch;
    NextPollAsWritten(epoch, currentEpoch, isWeekendDay);
  }

  /** As written, a poll published on a weekend day between 08:00 and 17:00
      leaves the next poll due at once: polling is not paused. */
  lemma WeekendDaytimePollStaysDue(nextEpoch: int, reverseMode: bool, reason: Reason, prefs: Prefs,
                                   currentEpoch: int, env: Env)
    requires currentEpoch >= 0 && !prefs.hideOnWeekends
    requires START_POLLING_HOUR <= (currentEpoch % SECONDS_PER_DAY) / 3600 < STOP_POLLING_HOUR
    requires UpdateOutcome(nextEpoch, reverseMode, reason, prefs, true, currentEpoch, env).published.Some?
    ensures UpdateOutcome(nextEpoch, reverseMode, reason, prefs, true, currentEpoch, env).nextEpoch <= currentEpoch
  {
    PublishedIffFetched(nextEpoch, reverseMode, reason, prefs, true, currentEpoch, env);
    var epoch := if reason == Manual || reason == SettingsChanged then 0 else nextEpoch;
    NextPollAsWritten(epoch, currentEpoch, true);
  }

  /** The extension object: the scheduler state kept between updates. */
  class PortfolioExtension {
    var nextEpoch: int
    var reverseMode: bool

    constructor ()
      ensures nextEpoch == 0 && !reverseMode
    {
      nextEpoch := 0;
      reverseMode := false;
    }

    /** After a published poll, outside market hours: the next poll is today's
        08:00, or tomorrow's from 17:00 on. */
    method SchedulePoll(isWeekendDay: bool, currentEpoch: int)
      modifies this
      ensures nextEpoch == NextEpochAsWritten(old(nextEpoch), currentEpoch, isWeekendDay)
      ensures reverseMode == old(reverseMode)
    {
      var currentDailySeconds := JavaRem(currentEpoch, SECONDS_PER_DAY);
      var currentDailyHours := JavaDiv(currentDailySeconds, 3600);
      if isWeekendDay || currentDailyHours < START_POLLING_HOUR || STOP_POLLING_HOUR <= currentDailyHours {
        nextEpoch := currentEpoch - currentDailySeconds + START_POLLING_HOUR * 3600;
        if STOP_POLLING_HOUR <= currentDailyHours {
          nextEpoch := nextEpoch + SECONDS_PER_DAY;
        }
      }
    }

    /** onUpdateData. The weekday test and the clock (already shifted by
        DEFAULT_TIMEZONE_OFFSET) are inputs; the published data are returned
        instead of handed to publishUpdate. */
    method OnUpdateData(reason: Reason, prefs: Prefs, isWeekendDay: bool, currentEpoch: int, env: Env)
      returns (published: Option<ExtensionData>)
      modifies this
      ensures Outcome(published, nextEpoch, reverseMode) ==
        UpdateOutcome(old(nextEpoch), old(reverseMode), reason, prefs, isWeekendDay, currentEpoch, env)
    {
      if prefs.hideOnWeekends && isWeekendDay {
        return Some(Hidden);
      }
      if reason == Manual || reason == SettingsChanged {
        nextEpoch := 0;
        reverseMode := prefs.clickReverse && reason != SettingsChanged && !reverseMode;
      }
      if nextEpoch > currentEpoch {
        return None;
      }
      var uri: Option<string> := None;
      if !prefs.clickReverse {
        if !IsNullOrEmpty(prefs.clickURL) {
          uri := prefs.clickURL;
        }
      }
      var ed := ExtensionData(true, Some("[No Data]"), Some("[No data available]"), Some(""), uri);
      assert ed == Defaults(prefs);
      var query := NormalizeSymbols(StringOf(prefs.symTitle) + "," + StringOf(prefs.syms), ",", 0);
      assert query == Query(prefs);
      var ok, filled := FetchSymbols(ed, query, prefs.symOrder, prefs.symTitle, reverseMode, prefs.showPrice, env);
      ghost var epoch := nextEpoch;
      published := None;
      if ok {
        published := Some(filled);
        SchedulePoll(isWeekendDay, currentEpoch);
      }
      assert Outcome(published, nextEpoch, reverseMode) ==
        AfterFetch((ok, filled), epoch, currentEpoch, isWeekendDay, reverseMode);
    }
  }
}
