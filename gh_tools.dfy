/** The pull-request summary pipeline of `gh_tools.py`: normalising raw
    pull-request records into rows, counting rows by core and community
    authors, and summarising merged and rejected pull requests month by
    month. */
module GhTools {
  import opened Wrappers
  import opened Sequences
  import opened Timestamps

  // ---------------------------------------------------------------------
  // Raw records and normalised rows
  // ---------------------------------------------------------------------

  datatype User = User(login: string)

  datatype Milestone = Milestone(title: string)

  /** A pull request as the repository API returns it. Absent JSON values
      (`null`) are `None`; timestamps are still text. */
  datatype PullRecord = PullRecord(
    number: int,
    user: Option<User>,
    milestone: Option<Milestone>,
    createdAt: Option<string>,
    mergedAt: Option<string>,
    closedAt: Option<string>)

  /** One row of the normalised table: number, user, milestone, opened,
      merged, closed. */
  datatype Row = Row(
    number: int,
    user: string,
    milestone: Option<string>,
    openedAt: Option<DateTime>,
    merged: bool,
    closed: Option<DateTime>)

  /** The `ValueError` that `datetime.strptime` raises for text that does
      not match the format; it carries the offending text. */
  datatype ParseError = ParseError(text: string)

  /** `datetime.strptime(s, "%Y-%m-%dT%H:%M:%SZ")`, supplied by the caller:
      `None` stands for a text it rejects. */
  type Parser = string -> Option<DateTime>

  /** Python truthiness of an optional string: present and non-empty. */
  predicate Truthy(s: Option<string>) {
    s.Some? && s.value != ""
  }

  /** `_parse_datetime`: a falsy value (`None` or the empty string) gives
      `None`; any other text is handed to the parser, whose rejection is
      raised. */
  function ParseDateTime(parse: Parser, s: Option<string>): (r: Result<Option<DateTime>, ParseError>)
    ensures r == Ok(None) <==> !Truthy(s)
    ensures r.Ok? && r.value.Some? <==> Truthy(s) && parse(s.value).Some?
    ensures r.Ok? && r.value.Some? ==> r.value == parse(s.value)
    ensures r.Err? <==> Truthy(s) && parse(s.value).None?
    ensures r.Err? ==> r.error == ParseError(s.value)
  {
    if Truthy(s) then
      match parse(s.value)
      case Some(t) => Ok(Some(t))
      case None => Err(ParseError(s.value))
    else
      Ok(None)
  }

  /** The filter of `pulls_to_data_frame`: a record is kept when it has an
      author and a truthy close time. */
  predicate Keep(p: PullRecord) {
    p.user.Some? && Truthy(p.closedAt)
  }

  /** Both timestamps of a record can be parsed. */
  predicate Parses(parse: Parser, p: PullRecord) {
    ParseDateTime(parse, p.createdAt).Ok? && ParseDateTime(parse, p.closedAt).Ok?
  }

  /** The error a record that does not parse raises: the creation time is
      parsed before the close time. */
  function FirstParseError(parse: Parser, p: PullRecord): ParseError
    requires !Parses(parse, p)
  {
    if ParseDateTime(parse, p.createdAt).Err? then ParseDateTime(parse, p.createdAt).error
    else ParseDateTime(parse, p.closedAt).error
  }

  /** `row` is the normalisation of record `p`: same number, the author's
      login, the milestone's title or `None`, both timestamps parsed, and
      `merged` exactly when the merge time is not `None`. */
  predicate Describes(parse: Parser, p: PullRecord, row: Row)
    requires p.user.Some?
  {
    && row.number == p.number
    && row.user == p.user.value.login
    && row.milestone == (if p.milestone.Some? then Some(p.milestone.value.title) else None)
    && ParseDateTime(parse, p.createdAt) == Ok(row.openedAt)
    && row.merged == p.mergedAt.Some?
    && ParseDateTime(parse, p.closedAt) == Ok(row.closed)
  }

  /** The row tuple built for one kept record. */
  function ToRow(parse: Parser, p: PullRecord): Result<Row, ParseError>
    requires p.user.Some?
  {
    var openedAt :- ParseDateTime(parse, p.createdAt);
    var closed :- ParseDateTime(parse, p.closedAt);
    Ok(Row(p.number, p.user.value.login,
           if p.milestone.Some? then Some(p.milestone.value.title) else None,
           openedAt, p.mergedAt.Some?, closed))
  }

  /** The list comprehension over the filtered records: one row per record,
      in order, or the error of the first record that does not parse. */
  function ToRows(parse: Parser, fs: seq<PullRecord>): (r: Result<seq<Row>, ParseError>)
    requires forall k :: 0 <= k < |fs| ==> fs[k].user.Some?
    ensures r.Ok? <==> forall k :: 0 <= k < |fs| ==> Parses(parse, fs[k])
    ensures r.Ok? ==> |r.value| == |fs|
    ensures r.Ok? ==> forall k :: 0 <= k < |fs| ==> Describes(parse, fs[k], r.value[k])
    ensures r.Err? ==>
      exists k :: 0 <= k < |fs| && !Parses(parse, fs[k])
        && (forall j :: 0 <= j < k ==> Parses(parse, fs[j]))
        && r.error == FirstParseError(parse, fs[k])
  {
    if fs == [] then Ok([])
    else
      var row :- ToRow(parse, fs[0]);
      var rest :- ToRows(parse, fs[1..]);
      Ok([row] + rest)
  }

  /** `pulls_to_data_frame`: drop the records without an author or close
      time, then normalise the rest in input order. */
  function PullsToDataFrame(parse: Parser, pulls: seq<PullRecord>): (r: Result<seq<Row>, ParseError>)
    ensures r.Ok? <==> forall k :: 0 <= k < |Filter(Keep, pulls)| ==> Parses(parse, Filter(Keep, pulls)[k])
    ensures r.Ok? ==> |r.value| == |Filter(Keep, pulls)|
    ensures r.Ok? ==> forall k :: 0 <= k < |r.value| ==> Describes(parse, Filter(Keep, pulls)[k], r.value[k])
    ensures r.Err? ==>
      exists k :: 0 <= k < |Filter(Keep, pulls)| && !Parses(parse, Filter(Keep, pulls)[k])
        && (forall j :: 0 <= j < k ==> Parses(parse, Filter(Keep, pulls)[j]))
        && r.error == FirstParseError(parse, Filter(Keep, pulls)[k])
  {
    var kept := Filter(Keep, pulls);
    var r := ToRows(parse, kept);
    assert (forall k :: 0 <= k < |kept| ==> Parses(parse, kept[k])) ==> r.Ok?;
    r
  }

  /** The records that reach the table are exactly the input records that
      have an author and a truthy close time. */
  lemma KeptRecords(pulls: seq<PullRecord>, p: PullRecord)
    ensures p in Filter(Keep, pulls) <==> p in pulls && p.user.Some? && Truthy(p.closedAt)
  {
    FilterMembership(Keep, pulls, p);
  }

  /** Normalisation succeeds exactly when every kept input record has
      parsable timestamps. */
  lemma NormaliseSucceeds(parse: Parser, pulls: seq<PullRecord>)
    ensures PullsToDataFrame(parse, pulls).Ok? <==>
            forall k :: 0 <= k < |pulls| && Keep(pulls[k]) ==> Parses(parse, pulls[k])
  {
    var kept := Filter(Keep, pulls);
    forall k | 0 <= k < |pulls| && Keep(pulls[k])
      ensures pulls[k] in kept
    {
      FilterMembership(Keep, pulls, pulls[k]);
    }
  }

  /** Normalising a concatenation normalises each part and concatenates the
      results: rows keep the order of their records. */
  lemma NormaliseOrder(parse: Parser, a: seq<PullRecord>, b: seq<PullRecord>)
    requires PullsToDataFrame(parse, a).Ok? && PullsToDataFrame(parse, b).Ok?
    ensures PullsToDataFrame(parse, a + b) ==
            Ok(PullsToDataFrame(parse, a).value + PullsToDataFrame(parse, b).value)
  {
    FilterConcat(Keep, a, b);
    DescribedConcat(parse, Filter(Keep, a), Filter(Keep, b),
                    PullsToDataFrame(parse, a).value, PullsToDataFrame(parse, b).value);
    RowsDetermined(parse, Filter(Keep, a + b), PullsToDataFrame(parse, a + b).value,
                   PullsToDataFrame(parse, a).value + PullsToDataFrame(parse, b).value);
  }

  /** Row-by-row correspondence survives concatenation. */
  lemma DescribedConcat(parse: Parser, ka: seq<PullRecord>, kb: seq<PullRecord>, ra: seq<Row>, rb: seq<Row>)
    requires |ka| == |ra| && |kb| == |rb|
    requires forall k :: 0 <= k < |ka| ==> ka[k].user.Some? && Parses(parse, ka[k]) && Describes(parse, ka[k], ra[k])
    requires forall k :: 0 <= k < |kb| ==> kb[k].user.Some? && Parses(parse, kb[k]) && Describes(parse, kb[k], rb[k])
    ensures forall k :: 0 <= k < |ka + kb| ==>
              (ka + kb)[k].user.Some? && Parses(parse, (ka + kb)[k]) && Describes(parse, (ka + kb)[k], (ra + rb)[k])
  {
    forall k | 0 <= k < |ka + kb|
      ensures (ka + kb)[k].user.Some? && Parses(parse, (ka + kb)[k]) && Describes(parse, (ka + kb)[k], (ra + rb)[k])
    {
      if k >= |ka| {
        assert (ka + kb)[k] == kb[k - |ka|] && (ra + rb)[k] == rb[k - |ka|];
      }
    }
  }

  /** A record has exactly one normalisation. */
  lemma RowsDetermined(parse: Parser, kept: seq<PullRecord>, r1: seq<Row>, r2: seq<Row>)
    requires |r1| == |kept| && |r2| == |kept|
    requires forall k :: 0 <= k < |kept| ==> kept[k].user.Some?
    requires forall k :: 0 <= k < |kept| ==> Describes(parse, kept[k], r1[k])
    requires forall k :: 0 <= k < |kept| ==> Describes(parse, kept[k], r2[k])
    ensures r1 == r2
  {
    forall k | 0 <= k < |kept|
      ensures r1[k] == r2[k]
    {
      assert Describes(parse, kept[k], r1[k]) && Describes(parse, kept[k], r2[k]);
    }
  }

  /** Every normalised row has a close time, so every row can fall in a
      month's window. */
  lemma RowsAreClosed(parse: Parser, pulls: seq<PullRecord>)
    requires PullsToDataFrame(parse, pulls).Ok?
    ensures forall k :: 0 <= k < |PullsToDataFrame(parse, pulls).value| ==>
              PullsToDataFrame(parse, pulls).value[k].closed.Some?
  {
    var kept := Filter(Keep, pulls);
    var rows := PullsToDataFrame(parse, pulls).value;
    forall k | 0 <= k < |rows|
      ensures rows[k].closed.Some?
    {
      assert Keep(kept[k]) && Describes(parse, kept[k], rows[k]);
    }
  }

  // ---------------------------------------------------------------------
  // Core and community authors
  // ---------------------------------------------------------------------

  /** The `core_devs` set of the source; the model takes the set as a
      parameter and this is the value the script uses. */
  const CoreDevs: set<string> :=
    {"fperez", "ellisonbg", "takluyver", "ivanov", "jdfreder", "minrk", "Carreau"}

  /** Positions of the rows written by a core author. */
  ghost function CoreIndices(rows: seq<Row>, core: set<string>): set<int> {
    set i | 0 <= i < |rows| && rows[i].user in core
  }

  /** Positions of the rows written by anybody else. */
  ghost function CommunityIndices(rows: seq<Row>, core: set<string>): set<int> {
    set i | 0 <= i < |rows| && rows[i].user !in core
  }

  /** `core_mask.sum()`: the number of rows whose author is in `core`. */
  function CoreCount(rows: seq<Row>, core: set<string>): (n: nat)
    ensures n == |CoreIndices(rows, core)|
  {
    if rows == [] then 0
    else
      var init, x := rows[..|rows| - 1], rows[|rows| - 1];
      assert rows == init + [x];
      IndicesSnoc(init, x, core);
      CoreCount(init, core) + (if x.user in core then 1 else 0)
  }

  /** Appending a row adds its position to exactly one of the two index
      sets. */
  lemma IndicesSnoc(rows: seq<Row>, x: Row, core: set<string>)
    ensures CoreIndices(rows + [x], core) ==
            CoreIndices(rows, core) + (if x.user in core then {|rows|} else {})
    ensures CommunityIndices(rows + [x], core) ==
            CommunityIndices(rows, core) + (if x.user in core then {} else {|rows|})
  {
    var s := rows + [x];
    forall i | 0 <= i < |rows|
      ensures s[i] == rows[i]
    {
    }
  }

  /** Every row is by a core author or by a community author. */
  lemma {:induction false} IndicesSplit(rows: seq<Row>, core: set<string>)
    ensures |CoreIndices(rows, core)| + |CommunityIndices(rows, core)| == |rows|
  {
    if rows != [] {
      var init, x := rows[..|rows| - 1], rows[|rows| - 1];
      assert rows == init + [x];
      IndicesSplit(init, core);
      IndicesSnoc(init, x, core);
      assert |init| !in CoreIndices(init, core) && |init| !in CommunityIndices(init, core);
    }
  }

  /** `core_non_core`: the number of rows by core authors and the number
      of the others. */
  function CoreNonCore(rows: seq<Row>, core: set<string>): (counts: (nat, nat))
    ensures counts.0 + counts.1 == |rows|
    ensures counts.0 == |CoreIndices(rows, core)|
    ensures counts.1 == |CommunityIndices(rows, core)|
    ensures counts.0 <= |rows| && counts.1 <= |rows|
    ensures rows == [] ==> counts == (0, 0)
  {
    IndicesSplit(rows, core);
    var coreCount := CoreCount(rows, core);
    (coreCount, |rows| - coreCount)
  }

  /** One more row adds one to exactly one of the two counts. */
  lemma CoreNonCoreAppend(rows: seq<Row>, x: Row, core: set<string>)
    ensures CoreNonCore(rows + [x], core) ==
            if x.user in core then (CoreNonCore(rows, core).0 + 1, CoreNonCore(rows, core).1)
            else (CoreNonCore(rows, core).0, CoreNonCore(rows, core).1 + 1)
  {
    assert (rows + [x])[..|rows + [x]| - 1] == rows;
  }

  // ---------------------------------------------------------------------
  // Calendar months
  // ---------------------------------------------------------------------

  /** A calendar month: `month` is 1 for January. */
  datatype Month = Month(year: int, month: int)

  /** Months counted from January of year 0. */
  function MonthIndex(m: Month): int {
    m.year * 12 + m.month - 1
  }

  function MonthOfIndex(i: int): Month {
    Month(i / 12, i % 12 + 1)
  }

  lemma IndexRoundTrip(i: int)
    ensures 1 <= MonthOfIndex(i).month <= 12
    ensures MonthIndex(MonthOfIndex(i)) == i
  {
  }

  lemma MonthRoundTrip(m: Month)
    requires 1 <= m.month <= 12
    ensures MonthOfIndex(MonthIndex(m)) == m
  {
    var i := MonthIndex(m);
    assert i == 12 * (i / 12) + i % 12;
  }

  /** The loop guards of `monthly_data`: `year` ranges over
      `range(year_start, year_end + 1)`, `month` over `range(1, 13)`, and
      the two `continue` conditions skip the months before `month_start`
      in the first year and those after `month_end` in the last. */
  predicate Enumerated(yearStart: int, monthStart: int, yearEnd: int, monthEnd: int, m: Month) {
    && yearStart <= m.year <= yearEnd
    && 1 <= m.month <= 12
    && !(m.year == yearStart && m.month < monthStart)
    && !(m.year == yearEnd && m.month > monthEnd)
  }

  function Clamp(x: int, lo: int, hi: int): int
    requires lo <= hi
  {
    if x < lo then lo else if x > hi then hi else x
  }

  /** Index of the first month the loops emit. A `month_start` below 1
      skips nothing and one above 12 skips the whole first year. */
  function FirstIndex(yearStart: int, monthStart: int): int {
    yearStart * 12 + Clamp(monthStart, 1, 13) - 1
  }

  /** Index of the last month the loops emit. */
  function LastIndex(yearEnd: int, monthEnd: int): int {
    yearEnd * 12 + Clamp(monthEnd, 0, 12) - 1
  }

  function MonthCount(yearStart: int, monthStart: int, yearEnd: int, monthEnd: int): nat {
    var lo, hi := FirstIndex(yearStart, monthStart), LastIndex(yearEnd, monthEnd);
    if hi < lo then 0 else hi - lo + 1
  }

  /** The months `monthly_data` visits, in order. */
  function Months(yearStart: int, monthStart: int, yearEnd: int, monthEnd: int): seq<Month> {
    var lo := FirstIndex(yearStart, monthStart);
    seq(MonthCount(yearStart, monthStart, yearEnd, monthEnd), k => MonthOfIndex(lo + k))
  }

  /** A month is visited exactly when the loop guards let it through. */
  lemma MonthsExact(yearStart: int, monthStart: int, yearEnd: int, monthEnd: int, m: Month)
    ensures m in Months(yearStart, monthStart, yearEnd, monthEnd) <==>
            Enumerated(yearStart, monthStart, yearEnd, monthEnd, m)
  {
    var months := Months(yearStart, monthStart, yearEnd, monthEnd);
    var lo := FirstIndex(yearStart, monthStart);
    if m in months {
      var k :| 0 <= k < |months| && months[k] == m;
      IndexRoundTrip(lo + k);
    }
    if Enumerated(yearStart, monthStart, yearEnd, monthEnd, m) {
      MonthRoundTrip(m);
      var k := MonthIndex(m) - lo;
      assert months[k] == m;
    }
  }

  /** The visited months are consecutive calendar months in increasing
      order. */
  lemma MonthsChronological(yearStart: int, monthStart: int, yearEnd: int, monthEnd: int)
    ensures var months := Months(yearStart, monthStart, yearEnd, monthEnd);
      && (forall k :: 0 <= k < |months| ==> 1 <= months[k].month <= 12)
      && (forall k :: 0 <= k < |months| - 1 ==> MonthIndex(months[k + 1]) == MonthIndex(months[k]) + 1)
      && (forall j, k :: 0 <= j < k < |months| ==> MonthIndex(months[j]) < MonthIndex(months[k]))
  {
    var months := Months(yearStart, monthStart, yearEnd, monthEnd);
    var lo := FirstIndex(yearStart, monthStart);
    forall k | 0 <= k < |months|
      ensures 1 <= months[k].month <= 12 && MonthIndex(months[k]) == lo + k
    {
      IndexRoundTrip(lo + k);
    }
  }

  /** For month arguments in 1..12, the visited months run from
      `(year_start, month_start)` to `(year_end, month_end)` inclusive, and
      there are none when the start month is later than the end month. */
  lemma MonthsSpan(yearStart: int, monthStart: int, yearEnd: int, monthEnd: int)
    requires 1 <= monthStart <= 12 && 1 <= monthEnd <= 12
    ensures var months := Months(yearStart, monthStart, yearEnd, monthEnd);
      var first, last := Month(yearStart, monthStart), Month(yearEnd, monthEnd);
      && (months == [] <==> MonthIndex(last) < MonthIndex(first))
      && (months != [] ==> |months| == MonthIndex(last) - MonthIndex(first) + 1)
      && (months != [] ==> months[0] == first && months[|months| - 1] == last)
  {
    var months := Months(yearStart, monthStart, yearEnd, monthEnd);
    if months != [] {
      MonthRoundTrip(Month(yearStart, monthStart));
      MonthRoundTrip(Month(yearEnd, monthEnd));
      assert months[0] == MonthOfIndex(MonthIndex(Month(yearStart, monthStart)));
      assert months[|months| - 1] == MonthOfIndex(MonthIndex(Month(yearEnd, monthEnd)));
    }
  }

  // ---------------------------------------------------------------------
  // Month windows
  // ---------------------------------------------------------------------

  /** `start = datetime(year=year, month=month, day=1)`. */
  function MonthStart(m: Month): DateTime {
    Midnight(m.year, m.month, 1)
  }

  /** `end`: the first of the next month, January of the next year after
      December. */
  function MonthEnd(m: Month): DateTime {
    if m.month == 12 then Midnight(m.year + 1, 1, 1) else Midnight(m.year, m.month + 1, 1)
  }

  /** A month's window ends where the following month's begins. */
  lemma MonthEndIsNextStart(m: Month)
    requires 1 <= m.month <= 12
    ensures MonthEnd(m) == MonthStart(MonthOfIndex(MonthIndex(m) + 1))
  {
    var i := MonthIndex(m) + 1;
    assert i == 12 * (i / 12) + i % 12;
  }

  /** The mask `(closed < end) * (closed > start)`: strict on both sides; a
      missing close time compares false. */
  predicate ClosedWithin(row: Row, start: DateTime, end: DateTime) {
    row.closed.Some? && Before(row.closed.value, end) && Before(start, row.closed.value)
  }

  function InMonth(m: Month): Row -> bool {
    (row: Row) => ClosedWithin(row, MonthStart(m), MonthEnd(m))
  }

  predicate IsMerged(row: Row) {
    row.merged
  }

  predicate IsRejected(row: Row) {
    !row.merged
  }

  /** `month_prs = df[mask]`. */
  function Selection(rows: seq<Row>, m: Month): seq<Row> {
    Filter(InMonth(m), rows)
  }

  /** Earlier months' windows lie entirely before later months' windows. */
  lemma WindowsOrdered(a: Month, b: Month)
    requires 1 <= a.month <= 12 && 1 <= b.month <= 12
    requires MonthIndex(a) < MonthIndex(b)
    ensures MonthEnd(a) == MonthStart(b) || Before(MonthEnd(a), MonthStart(b))
  {
    MonthEndIsNextStart(a);
    var n := MonthOfIndex(MonthIndex(a) + 1);
    IndexRoundTrip(MonthIndex(a) + 1);
  }

  /** A close time lies in at most one month's window. */
  lemma AtMostOneMonth(row: Row, a: Month, b: Month)
    requires 1 <= a.month <= 12 && 1 <= b.month <= 12
    requires InMonth(a)(row) && InMonth(b)(row)
    ensures a == b
  {
    var t := row.closed.value;
    if MonthIndex(a) < MonthIndex(b) {
      WindowsOrdered(a, b);
      BeforeIsStrictTotalOrder(t, MonthEnd(a), MonthStart(b));
      BeforeIsStrictTotalOrder(t, MonthStart(b), t);
    } else if MonthIndex(b) < MonthIndex(a) {
      WindowsOrdered(b, a);
      BeforeIsStrictTotalOrder(t, MonthEnd(b), MonthStart(a));
      BeforeIsStrictTotalOrder(t, MonthStart(a), t);
    } else {
      MonthRoundTrip(a);
      MonthRoundTrip(b);
    }
  }

  /** A close time at the very first instant of a month lies in no month's
      window: the lower bound is strict and the previous window's upper
      bound is strict too. */
  lemma FirstInstantInNoMonth(row: Row, first: Month, m: Month)
    requires 1 <= first.month <= 12 && 1 <= m.month <= 12
    requires row.closed == Some(MonthStart(first))
    ensures !InMonth(m)(row)
  {
    var t := MonthStart(first);
    if MonthIndex(m) < MonthIndex(first) {
      WindowsOrdered(m, first);
      BeforeIsStrictTotalOrder(t, MonthEnd(m), t);
    } else if MonthIndex(first) < MonthIndex(m) {
      WindowsOrdered(first, m);
      assert Before(t, MonthEnd(first));
      BeforeIsStrictTotalOrder(t, MonthEnd(first), MonthStart(m));
      BeforeIsStrictTotalOrder(MonthStart(m), t, MonthStart(m));
    } else {
      MonthRoundTrip(first);
      MonthRoundTrip(m);
    }
  }

  /** A well-formed close time that is not the first instant of its month
      lies in the window of its own month. */
  lemma InOwnMonth(row: Row)
    requires row.closed.Some? && WellFormed(row.closed.value)
    requires row.closed.value != MonthStart(Month(row.closed.value.year, row.closed.value.month))
    ensures InMonth(Month(row.closed.value.year, row.closed.value.month))(row)
  {
  }

  // ---------------------------------------------------------------------
  // Monthly summary
  // ---------------------------------------------------------------------

  /** One entry of `data`: `[start.date(), cm, ncm, cr, ncr]`. */
  datatype Bucket = Bucket(
    date: Date,
    coreMerged: nat,
    communityMerged: nat,
    coreRejected: nat,
    communityRejected: nat)

  /** The counts of a month's selection: split into merged and not merged
      rows, each counted by core and community authors. */
  function Tally(selected: seq<Row>, core: set<string>, date: Date): Bucket {
    var (cm, ncm) := CoreNonCore(Filter(IsMerged, selected), core);
    var (cr, ncr) := CoreNonCore(Filter(IsRejected, selected), core);
    Bucket(date, cm, ncm, cr, ncr)
  }

  /** The bucket of one month: the rows closed inside its window, tallied
      under the date of its first day. */
  function MonthBucket(rows: seq<Row>, core: set<string>, m: Month): Bucket {
    Tally(Selection(rows, m), core, DateOf(MonthStart(m)))
  }

  /** Merged and rejected rows partition a month's selection, so the four
      counts add up to the number of rows selected for the month. */
  lemma BucketPartition(rows: seq<Row>, core: set<string>, m: Month)
    ensures var b, selected := MonthBucket(rows, core, m), Selection(rows, m);
      && b.date == Date(m.year, m.month, 1)
      && b.coreMerged + b.communityMerged == |Filter(IsMerged, selected)|
      && b.coreRejected + b.communityRejected == |Filter(IsRejected, selected)|
      && b.coreMerged + b.communityMerged + b.coreRejected + b.communityRejected == |selected|
      && multiset(Filter(IsMerged, selected)) + multiset(Filter(IsRejected, selected)) == multiset(selected)
  {
    FilterComplement(IsMerged, IsRejected, Selection(rows, m));
  }

  /** A bucket with one more row counted, in the column its author class
      and merge state select. */
  function Bump(b: Bucket, row: Row, core: set<string>): Bucket {
    match (row.merged, row.user in core)
    case (true, true) => b.(coreMerged := b.coreMerged + 1)
    case (true, false) => b.(communityMerged := b.communityMerged + 1)
    case (false, true) => b.(coreRejected := b.coreRejected + 1)
    case (false, false) => b.(communityRejected := b.communityRejected + 1)
  }

  /** One more selected row adds one to exactly the column it belongs to. */
  lemma TallyAppend(selected: seq<Row>, core: set<string>, date: Date, row: Row)
    ensures Tally(selected + [row], core, date) == Bump(Tally(selected, core, date), row, core)
  {
    FilterSnoc(IsMerged, selected, row);
    FilterSnoc(IsRejected, selected, row);
    CoreNonCoreAppend(Filter(IsMerged, selected), row, core);
    CoreNonCoreAppend(Filter(IsRejected, selected), row, core);
  }

  /** Adding a row changes a month's bucket exactly when the row's close
      time is inside that month's window, and then by one in one column. */
  lemma BucketAppend(rows: seq<Row>, core: set<string>, m: Month, row: Row)
    ensures MonthBucket(rows + [row], core, m) ==
            if InMonth(m)(row) then Bump(MonthBucket(rows, core, m), row, core)
            else MonthBucket(rows, core, m)
  {
    FilterSnoc(InMonth(m), rows, row);
    if InMonth(m)(row) {
      TallyAppend(Selection(rows, m), core, DateOf(MonthStart(m)), row);
    }
  }

  /** The `ValueError` that `datetime(...)` raises for a year outside
      `MINYEAR..MAXYEAR`; it carries the rejected year. */
  datatype MonthlyError = YearOutOfRange(year: int)

  /** Both `start` and `end` of a month can be built by `datetime`. */
  predicate WindowInRange(m: Month) {
    MinYear <= m.year <= MaxYear && !(m.year == MaxYear && m.month == 12)
  }

  /** The error of a month whose window cannot be built: `start` fails for
      a year out of range, otherwise `end` fails for the year after. */
  function WindowError(m: Month): MonthlyError {
    if MinYear <= m.year <= MaxYear then YearOutOfRange(m.year + 1) else YearOutOfRange(m.year)
  }

  /** The list `data` that the loops build for the given months, or the
      error raised at the first month whose window cannot be built. */
  function Tabulate(rows: seq<Row>, core: set<string>, months: seq<Month>): (r: Result<seq<Bucket>, MonthlyError>)
    ensures r.Ok? <==> forall k :: 0 <= k < |months| ==> WindowInRange(months[k])
    ensures r.Ok? ==> |r.value| == |months|
    ensures r.Ok? ==> forall k :: 0 <= k < |months| ==> r.value[k] == MonthBucket(rows, core, months[k])
    ensures r.Err? ==>
      exists k :: 0 <= k < |months| && !WindowInRange(months[k])
        && (forall j :: 0 <= j < k ==> WindowInRange(months[j]))
        && r.error == WindowError(months[k])
  {
    if months == [] then Ok([])
    else if !WindowInRange(months[0]) then Err(WindowError(months[0]))
    else
      var rest :- Tabulate(rows, core, months[1..]);
      Ok([MonthBucket(rows, core, months[0])] + rest)
  }

  /** One row of a returned table: the month's date and its `core` and
      `community` columns. */
  datatype TableRow = TableRow(date: Date, core: nat, community: nat)

  /** The merged and the rejected tables. */
  datatype Summary = Summary(merged: seq<TableRow>, rejected: seq<TableRow>)

  /** The frame built from `data`, indexed by date, split into the merged
      columns `cm, ncm` and the rejected columns `cr, ncr`, each renamed
      `core, community`. */
  function Tables(data: seq<Bucket>): (s: Summary)
    ensures |s.merged| == |data| && |s.rejected| == |data|
    ensures forall k :: 0 <= k < |data| ==>
              && s.merged[k] == TableRow(data[k].date, data[k].coreMerged, data[k].communityMerged)
              && s.rejected[k] == TableRow(data[k].date, data[k].coreRejected, data[k].communityRejected)
  {
    Summary(
      seq(|data|, k requires 0 <= k < |data| => TableRow(data[k].date, data[k].coreMerged, data[k].communityMerged)),
      seq(|data|, k requires 0 <= k < |data| => TableRow(data[k].date, data[k].coreRejected, data[k].communityRejected)))
  }

  /** What `monthly_data` returns for an explicit end month. */
  function Monthly(rows: seq<Row>, core: set<string>, yearStart: int, monthStart: int, yearEnd: int, monthEnd: int)
    : Result<Summary, MonthlyError>
  {
    match Tabulate(rows, core, Months(yearStart, monthStart, yearEnd, monthEnd))
    case Ok(data) => Ok(Tables(data))
    case Err(e) => Err(e)
  }

  /** The two tables have one row per visited month, in the order of the
      months, both keyed by the first day of the month, and carry the
      (core, community) pairs of that month's merged and rejected rows,
      which together count every row selected for the month. The result is
      an error exactly when some visited month's window cannot be built. */
  lemma MonthlyTables(rows: seq<Row>, core: set<string>, yearStart: int, monthStart: int,
                      yearEnd: int, monthEnd: int)
    ensures var months, r := Months(yearStart, monthStart, yearEnd, monthEnd),
                             Monthly(rows, core, yearStart, monthStart, yearEnd, monthEnd);
      && (r.Ok? <==> forall k :: 0 <= k < |months| ==> WindowInRange(months[k]))
      && (r.Ok? ==>
            && |r.value.merged| == |months| && |r.value.rejected| == |months|
            && forall k :: 0 <= k < |months| ==>
                 var selected := Selection(rows, months[k]);
                 && r.value.merged[k].date == Date(months[k].year, months[k].month, 1)
                 && r.value.rejected[k].date == r.value.merged[k].date
                 && r.value.merged[k].core == CoreNonCore(Filter(IsMerged, selected), core).0
                 && r.value.merged[k].community == CoreNonCore(Filter(IsMerged, selected), core).1
                 && r.value.rejected[k].core == CoreNonCore(Filter(IsRejected, selected), core).0
                 && r.value.rejected[k].community == CoreNonCore(Filter(IsRejected, selected), core).1
                 && r.value.merged[k].core + r.value.merged[k].community
                    + r.value.rejected[k].core + r.value.rejected[k].community == |selected|)
  {
    var months := Months(yearStart, monthStart, yearEnd, monthEnd);
    var t := Tabulate(rows, core, months);
    if t.Ok? {
      forall k | 0 <= k < |months|
        ensures t.value[k] == MonthBucket(rows, core, months[k])
      {
      }
      forall k | 0 <= k < |months|
        ensures var b := MonthBucket(rows, core, months[k]);
          b.coreMerged + b.communityMerged + b.coreRejected + b.communityRejected
            == |Selection(rows, months[k])|
      {
        BucketPartition(rows, core, months[k]);
      }
    }
  }

  /** Tabulating depends on the rows only through the buckets of the
      months tabulated. */
  lemma {:induction false} TabulateCongruent(rows1: seq<Row>, rows2: seq<Row>, core: set<string>, months: seq<Month>)
    requires forall k :: 0 <= k < |months| ==> MonthBucket(rows1, core, months[k]) == MonthBucket(rows2, core, months[k])
    ensures Tabulate(rows1, core, months) == Tabulate(rows2, core, months)
  {
    if months != [] && WindowInRange(months[0]) {
      forall k | 0 <= k < |months[1..]|
        ensures MonthBucket(rows1, core, months[1..][k]) == MonthBucket(rows2, core, months[1..][k])
      {
        assert months[1..][k] == months[k + 1];
      }
      TabulateCongruent(rows1, rows2, core, months[1..]);
    }
  }

  /** A row closed at the first instant of a month is counted in no month:
      adding it leaves the whole summary unchanged. */
  lemma FirstInstantUncounted(rows: seq<Row>, core: set<string>, yearStart: int, monthStart: int,
                              yearEnd: int, monthEnd: int, row: Row, first: Month)
    requires 1 <= first.month <= 12
    requires row.closed == Some(MonthStart(first))
    ensures Monthly(rows + [row], core, yearStart, monthStart, yearEnd, monthEnd) ==
            Monthly(rows, core, yearStart, monthStart, yearEnd, monthEnd)
  {
    var months := Months(yearStart, monthStart, yearEnd, monthEnd);
    MonthsChronological(yearStart, monthStart, yearEnd, monthEnd);
    forall k | 0 <= k < |months|
      ensures MonthBucket(rows + [row], core, months[k]) == MonthBucket(rows, core, months[k])
    {
      FirstInstantInNoMonth(row, first, months[k]);
      BucketAppend(rows, core, months[k], row);
    }
    TabulateCongruent(rows + [row], rows, core, months);
  }

  /** A row with a well-formed close time other than a month's first
      instant is counted once, in the bucket of its own month and in the
      column its merge state and author select; every other month's bucket
      is unchanged. */
  lemma CountedInOwnMonth(rows: seq<Row>, core: set<string>, row: Row, m: Month)
    requires row.closed.Some? && WellFormed(row.closed.value)
    requires row.closed.value != MonthStart(Month(row.closed.value.year, row.closed.value.month))
    requires 1 <= m.month <= 12
    ensures var own := Month(row.closed.value.year, row.closed.value.month);
      MonthBucket(rows + [row], core, m) ==
        if m == own then Bump(MonthBucket(rows, core, m), row, core) else MonthBucket(rows, core, m)
  {
    var own := Month(row.closed.value.year, row.closed.value.month);
    InOwnMonth(row);
    if InMonth(m)(row) {
      AtMostOneMonth(row, m, own);
    }
    BucketAppend(rows, core, m, row);
  }

  /** One merged pull request by a core developer, closed in mid-March
      2021, summarised for March 2021 alone. */
  lemma CoreMergedScenario()
    ensures var row := Row(1, "minrk", None, None, true, Some(DateTime(2021, 3, 15, 12, 0, 0)));
      Monthly([row], CoreDevs, 2021, 3, 2021, 3) ==
        Ok(Summary([TableRow(Date(2021, 3, 1), 1, 0)], [TableRow(Date(2021, 3, 1), 0, 0)]))
  {
    var row := Row(1, "minrk", None, None, true, Some(DateTime(2021, 3, 15, 12, 0, 0)));
    var months := Months(2021, 3, 2021, 3);
    MonthsSpan(2021, 3, 2021, 3);
    assert months == [Month(2021, 3)];
    assert Selection([row], Month(2021, 3)) == [row];
    assert Filter(IsMerged, [row]) == [row];
    assert Filter(IsRejected, [row]) == [];
    assert CoreNonCore([row], CoreDevs) == (1, 0);
    var b := Bucket(Date(2021, 3, 1), 1, 0, 0, 0);
    assert MonthBucket([row], CoreDevs, Month(2021, 3)) == b;
    assert WindowInRange(months[0]);
    assert Tabulate([row], CoreDevs, months).value == [b];
    assert Tables([b]).merged == [TableRow(Date(2021, 3, 1), 1, 0)];
    assert Tables([b]).rejected == [TableRow(Date(2021, 3, 1), 0, 0)];
  }

  /** The same for a rejected pull request by a community contributor. */
  lemma CommunityRejectedScenario()
    ensures var row := Row(2, "alice", None, None, false, Some(DateTime(2021, 3, 15, 12, 0, 0)));
      Monthly([row], CoreDevs, 2021, 3, 2021, 3) ==
        Ok(Summary([TableRow(Date(2021, 3, 1), 0, 0)], [TableRow(Date(2021, 3, 1), 0, 1)]))
  {
    var row := Row(2, "alice", None, None, false, Some(DateTime(2021, 3, 15, 12, 0, 0)));
    var months := Months(2021, 3, 2021, 3);
    MonthsSpan(2021, 3, 2021, 3);
    assert months == [Month(2021, 3)];
    assert Selection([row], Month(2021, 3)) == [row];
    assert Filter(IsMerged, [row]) == [];
    assert Filter(IsRejected, [row]) == [row];
    assert CoreNonCore([row], CoreDevs) == (0, 1);
    var b := Bucket(Date(2021, 3, 1), 0, 0, 0, 1);
    assert MonthBucket([row], CoreDevs, Month(2021, 3)) == b;
    assert WindowInRange(months[0]);
    assert Tabulate([row], CoreDevs, months).value == [b];
    assert Tables([b]).merged == [TableRow(Date(2021, 3, 1), 0, 0)];
    assert Tables([b]).rejected == [TableRow(Date(2021, 3, 1), 0, 1)];
  }

  /** `monthly_data`. A start month that is not given is January; the
      clock reading `today` supplies the end year and month that are not
      given. */
  method MonthlyData(rows: seq<Row>, core: set<string>, yearStart: int, monthStart: Option<int>,
                     yearEnd: Option<int>, monthEnd: Option<int>, today: DateTime)
    returns (r: Result<Summary, MonthlyError>)
    ensures r == Monthly(rows, core, yearStart, monthStart.GetOr(1),
                         yearEnd.GetOr(today.year), monthEnd.GetOr(today.month))
  {
    var firstMonth := if monthStart.None? then 1 else monthStart.value;
    var lastMonth := if monthEnd.None? then today.month else monthEnd.value;
    var lastYear := if yearEnd.None? then today.year else yearEnd.value;
    r := MonthlyLoops(rows, core, yearStart, firstMonth, lastYear, lastMonth);
  }

  /** The nested loops of `monthly_data` over the years and months, once
      all four bounds are known. */
  method MonthlyLoops(rows: seq<Row>, core: set<string>, yearStart: int, monthStart: int,
                      lastYear: int, lastMonth: int)
    returns (r: Result<Summary, MonthlyError>)
    ensures r == Monthly(rows, core, yearStart, monthStart, lastYear, lastMonth)
  {
    var data: seq<Bucket> := [];
    var year := yearStart;
    ProgressStart(rows, core, yearStart, monthStart, lastYear, lastMonth);
    while year <= lastYear
      invariant yearStart <= year && (year <= lastYear + 1 || year == yearStart)
      invariant Progress(rows, core, yearStart, monthStart, lastYear, lastMonth, MonthIndex(Month(year, 1)), data)
    {
      for month := 1 to 13
        invariant Progress(rows, core, yearStart, monthStart, lastYear, lastMonth, MonthIndex(Month(year, month)), data)
      {
        ProgressVisit(rows, core, yearStart, monthStart, lastYear, lastMonth, Month(year, month), data);
        if year == yearStart && month < monthStart {
          continue;
        } else if year == lastYear && month > lastMonth {
          continue;
        }
        if !WindowInRange(Month(year, month)) {
          return Err(WindowError(Month(year, month)));
        }
        data := data + [MonthBucket(rows, core, Month(year, month))];
      }
      year := year + 1;
    }
    ProgressEnd(rows, core, yearStart, monthStart, lastYear, lastMonth, year, data);
    r := Ok(Tables(data));
  }

  /** The buckets of a sequence of months, one per month. */
  function Buckets(rows: seq<Row>, core: set<string>, months: seq<Month>): seq<Bucket> {
    seq(|months|, k requires 0 <= k < |months| => MonthBucket(rows, core, months[k]))
  }

  /** The loop state of `monthly_data` before visiting the month with index
      `i`: `data` holds the buckets of exactly the enumerated months before
      it, each of whose windows could be built. */
  ghost predicate Progress(rows: seq<Row>, core: set<string>, yearStart: int, monthStart: int,
                           yearEnd: int, monthEnd: int, i: int, data: seq<Bucket>)
  {
    var months := Months(yearStart, monthStart, yearEnd, monthEnd);
    && |data| == Clamp(i - FirstIndex(yearStart, monthStart), 0, |months|)
    && (forall k :: 0 <= k < |data| ==> WindowInRange(months[k]))
    && data == Buckets(rows, core, months[..|data|])
  }

  lemma ProgressStart(rows: seq<Row>, core: set<string>, yearStart: int, monthStart: int,
                      yearEnd: int, monthEnd: int)
    ensures Progress(rows, core, yearStart, monthStart, yearEnd, monthEnd, MonthIndex(Month(yearStart, 1)), [])
  {
  }

  /** Visiting one month: a month the guards skip leaves the loop state as
      it is; a month they let through is the next enumerated month, and
      either its bucket is appended or, when its window cannot be built,
      the result is that month's error. */
  lemma ProgressVisit(rows: seq<Row>, core: set<string>, yearStart: int, monthStart: int,
                      yearEnd: int, monthEnd: int, m: Month, data: seq<Bucket>)
    requires yearStart <= m.year <= yearEnd && 1 <= m.month <= 12
    requires Progress(rows, core, yearStart, monthStart, yearEnd, monthEnd, MonthIndex(m), data)
    ensures !Enumerated(yearStart, monthStart, yearEnd, monthEnd, m) ==>
              Progress(rows, core, yearStart, monthStart, yearEnd, monthEnd, MonthIndex(m) + 1, data)
    ensures Enumerated(yearStart, monthStart, yearEnd, monthEnd, m) && WindowInRange(m) ==>
              Progress(rows, core, yearStart, monthStart, yearEnd, monthEnd, MonthIndex(m) + 1,
                       data + [MonthBucket(rows, core, m)])
    ensures Enumerated(yearStart, monthStart, yearEnd, monthEnd, m) && !WindowInRange(m) ==>
              Monthly(rows, core, yearStart, monthStart, yearEnd, monthEnd) == Err(WindowError(m))
  {
    if !Enumerated(yearStart, monthStart, yearEnd, monthEnd, m) {
      ProgressSkip(rows, core, yearStart, monthStart, yearEnd, monthEnd, m, data);
    } else if WindowInRange(m) {
      ProgressEmit(rows, core, yearStart, monthStart, yearEnd, monthEnd, m, data);
    } else {
      ProgressError(rows, core, yearStart, monthStart, yearEnd, monthEnd, m, data);
    }
  }

  lemma ProgressSkip(rows: seq<Row>, core: set<string>, yearStart: int, monthStart: int,
                     yearEnd: int, monthEnd: int, m: Month, data: seq<Bucket>)
    requires yearStart <= m.year <= yearEnd && 1 <= m.month <= 12
    requires !Enumerated(yearStart, monthStart, yearEnd, monthEnd, m)
    requires Progress(rows, core, yearStart, monthStart, yearEnd, monthEnd, MonthIndex(m), data)
    ensures Progress(rows, core, yearStart, monthStart, yearEnd, monthEnd, MonthIndex(m) + 1, data)
  {
    VisitStep(yearStart, monthStart, yearEnd, monthEnd, m);
  }

  lemma ProgressEmit(rows: seq<Row>, core: set<string>, yearStart: int, monthStart: int,
                     yearEnd: int, monthEnd: int, m: Month, data: seq<Bucket>)
    requires Enumerated(yearStart, monthStart, yearEnd, monthEnd, m) && WindowInRange(m)
    requires Progress(rows, core, yearStart, monthStart, yearEnd, monthEnd, MonthIndex(m), data)
    ensures Progress(rows, core, yearStart, monthStart, yearEnd, monthEnd, MonthIndex(m) + 1,
                     data + [MonthBucket(rows, core, m)])
  {
    var months := Months(yearStart, monthStart, yearEnd, monthEnd);
    VisitStep(yearStart, monthStart, yearEnd, monthEnd, m);
    BucketsSnoc(rows, core, months, |data|);
  }

  lemma BucketsSnoc(rows: seq<Row>, core: set<string>, months: seq<Month>, c: nat)
    requires c < |months|
    ensures Buckets(rows, core, months[..c + 1]) ==
            Buckets(rows, core, months[..c]) + [MonthBucket(rows, core, months[c])]
  {
    assert months[..c + 1] == months[..c] + [months[c]];
  }

  lemma ProgressError(rows: seq<Row>, core: set<string>, yearStart: int, monthStart: int,
                      yearEnd: int, monthEnd: int, m: Month, data: seq<Bucket>)
    requires Enumerated(yearStart, monthStart, yearEnd, monthEnd, m) && !WindowInRange(m)
    requires Progress(rows, core, yearStart, monthStart, yearEnd, monthEnd, MonthIndex(m), data)
    ensures Monthly(rows, core, yearStart, monthStart, yearEnd, monthEnd) == Err(WindowError(m))
  {
    var months := Months(yearStart, monthStart, yearEnd, monthEnd);
    VisitStep(yearStart, monthStart, yearEnd, monthEnd, m);
    var c := |data|;
    assert months[c] == m;
    var t := Tabulate(rows, core, months);
    assert t.Err?;
    var k :| 0 <= k < |months| && !WindowInRange(months[k])
             && (forall j :: 0 <= j < k ==> WindowInRange(months[j]))
             && t.error == WindowError(months[k]);
    assert k == c;
  }

  /** After the last year every enumerated month has been visited. */
  lemma ProgressEnd(rows: seq<Row>, core: set<string>, yearStart: int, monthStart: int,
                    yearEnd: int, monthEnd: int, year: int, data: seq<Bucket>)
    requires yearEnd < year && (year == yearEnd + 1 || year == yearStart)
    requires Progress(rows, core, yearStart, monthStart, yearEnd, monthEnd, MonthIndex(Month(year, 1)), data)
    ensures Monthly(rows, core, yearStart, monthStart, yearEnd, monthEnd) == Ok(Tables(data))
  {
    var months := Months(yearStart, monthStart, yearEnd, monthEnd);
    assert |data| == |months|;
    assert months[..|data|] == months;
    var t := Tabulate(rows, core, months);
    assert t.Ok?;
    assert t.value == data;
  }

  /** One step of the nested loops: a month the guards let through is the
      next month of the enumeration; a skipped month moves nothing. */
  lemma VisitStep(yearStart: int, monthStart: int, yearEnd: int, monthEnd: int, m: Month)
    requires yearStart <= m.year <= yearEnd && 1 <= m.month <= 12
    ensures var months := Months(yearStart, monthStart, yearEnd, monthEnd);
      var lo, n, i := FirstIndex(yearStart, monthStart), |months|, MonthIndex(m);
      if Enumerated(yearStart, monthStart, yearEnd, monthEnd, m) then
        && Clamp(i - lo, 0, n) < n
        && months[Clamp(i - lo, 0, n)] == m
        && Clamp(i + 1 - lo, 0, n) == Clamp(i - lo, 0, n) + 1
      else
        Clamp(i + 1 - lo, 0, n) == Clamp(i - lo, 0, n)
  {
    var months := Months(yearStart, monthStart, yearEnd, monthEnd);
    var lo := FirstIndex(yearStart, monthStart);
    if Enumerated(yearStart, monthStart, yearEnd, monthEnd, m) {
      MonthRoundTrip(m);
      assert months[MonthIndex(m) - lo] == MonthOfIndex(MonthIndex(m));
    }
  }
}
