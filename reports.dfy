/**
 * The two report queries over the callLogs table, as functions on the table's
 * rows, and the lines the CSV writers emit for them: the analytics report
 * groups the calls by user and gives each user's average duration and number
 * of calls; the ordered export lists every call row sorted by user and then
 * by start time.
 */
module Reports {
  import opened Wrappers
  import opened Text
  import opened Ingest

  // ---------------------------------------------------------------- analytics

  /** One result row of the analytics query. The average duration is kept exact as the pair
      (total, count); `AvgDuration` gives its value. */
  datatype UserStats = UserStats(userId: int, totalDuration: int, numCalls: nat)

  function Duration(c: CallLog): int {
    c.endTime - c.startTime
  }

  /** COUNT(*) over the rows of user u. */
  function CallsOf(t: seq<CallLog>, u: int): nat {
    if t == [] then 0
    else CallsOf(t[..|t| - 1], u) + (if t[|t| - 1].userId == u then 1 else 0)
  }

  /** SUM(endTime - startTime) over the rows of user u. */
  function DurationOf(t: seq<CallLog>, u: int): int {
    if t == [] then 0
    else DurationOf(t[..|t| - 1], u) + (if t[|t| - 1].userId == u then Duration(t[|t| - 1]) else 0)
  }

  /** The group the query reports for user u. */
  function Summary(t: seq<CallLog>, u: int): UserStats {
    UserStats(u, DurationOf(t, u), CallsOf(t, u))
  }

  /** AVG(endTime - startTime) of a group, as an exact rational. */
  function AvgDuration(s: UserStats): real
    requires s.numCalls > 0
  {
    s.totalDuration as real / s.numCalls as real
  }

  predicate Ascending(rows: seq<UserStats>) {
    forall i, j :: 0 <= i < j < |rows| ==> rows[i].userId < rows[j].userId
  }

  /** The group of user u among the result rows, if there is one. */
  function Find(rows: seq<UserStats>, u: int): Option<UserStats> {
    if rows == [] then None
    else if rows[0].userId == u then Some(rows[0])
    else Find(rows[1..], u)
  }

  /** The group `g` after one more call of its user. */
  function Bump(g: Option<UserStats>, c: CallLog): UserStats {
    match g
    case None => UserStats(c.userId, Duration(c), 1)
    case Some(s) => UserStats(s.userId, s.totalDuration + Duration(c), s.numCalls + 1)
  }

  /** Counts one call into the groups, which are kept in ascending `userId` order. */
  function Tally(rows: seq<UserStats>, c: CallLog): seq<UserStats> {
    if rows == [] then [Bump(None, c)]
    else if rows[0].userId == c.userId then [Bump(Some(rows[0]), c)] + rows[1..]
    else if c.userId < rows[0].userId then [Bump(None, c)] + rows
    else [rows[0]] + Tally(rows[1..], c)
  }

  /** The analytics query: one (userId, total duration, count) row per user with calls. SQL
      leaves the row order of GROUP BY open; this model emits ascending `userId`. */
  function UserAnalytics(t: seq<CallLog>): seq<UserStats> {
    if t == [] then [] else Tally(UserAnalytics(t[..|t| - 1]), t[|t| - 1])
  }

  lemma {:induction false} FindInAscending(rows: seq<UserStats>, u: int)
    requires Ascending(rows)
    ensures Find(rows, u).Some? ==> Find(rows, u).value in rows && Find(rows, u).value.userId == u
    ensures forall r :: r in rows && r.userId == u ==> Find(rows, u) == Some(r)
  {
    if rows != [] {
      FindInAscending(rows[1..], u);
      forall r | r in rows && r.userId == u ensures Find(rows, u) == Some(r) {
        if r != rows[0] {
          var k :| 0 <= k < |rows| && rows[k] == r;
          assert k > 0;
          assert r in rows[1..] by { assert rows[1..][k - 1] == r; }
        }
      }
    }
  }

  /** Tally only ever adds the calling user's id: a lower bound on the ids survives. */
  lemma {:induction false} TallyAbove(rows: seq<UserStats>, c: CallLog, b: int)
    requires forall i :: 0 <= i < |rows| ==> rows[i].userId > b
    requires c.userId > b
    ensures forall i :: 0 <= i < |Tally(rows, c)| ==> Tally(rows, c)[i].userId > b
  {
    if rows != [] && c.userId > rows[0].userId {
      TallyAbove(rows[1..], c, b);
    }
  }

  lemma {:induction false} FindMissing(rows: seq<UserStats>, u: int)
    requires forall i :: 0 <= i < |rows| ==> rows[i].userId != u
    ensures Find(rows, u) == None
  {
    if rows != [] {
      FindMissing(rows[1..], u);
    }
  }

  /** Counting a call changes exactly its own user's group and keeps the groups ascending. */
  lemma {:induction false} TallyFind(rows: seq<UserStats>, c: CallLog, u: int)
    requires Ascending(rows)
    ensures Ascending(Tally(rows, c))
    ensures Find(Tally(rows, c), u) == if u == c.userId then Some(Bump(Find(rows, u), c)) else Find(rows, u)
  {
    if rows == [] {
    } else if rows[0].userId == c.userId {
      var r := Tally(rows, c);
      assert r == [Bump(Some(rows[0]), c)] + rows[1..];
      assert r[1..] == rows[1..];
      forall i, j | 0 <= i < j < |r| ensures r[i].userId < r[j].userId {
        assert r[i].userId == rows[i].userId && r[j].userId == rows[j].userId;
      }
    } else if c.userId < rows[0].userId {
      var r := Tally(rows, c);
      assert r == [Bump(None, c)] + rows;
      assert r[1..] == rows;
      forall i, j | 0 <= i < j < |r| ensures r[i].userId < r[j].userId {
        if i == 0 {
          assert r[j] == rows[j - 1];
          assert rows[0].userId <= rows[j - 1].userId;
        } else {
          assert r[i] == rows[i - 1] && r[j] == rows[j - 1];
        }
      }
      if u == c.userId {
        forall i | 0 <= i < |rows| ensures rows[i].userId != u {
          assert rows[0].userId <= rows[i].userId;
        }
        FindMissing(rows, u);
      }
    } else {
      var tail := rows[1..];
      TallyFind(tail, c, u);
      TallyAbove(tail, c, rows[0].userId);
      var r := Tally(rows, c);
      var rt := Tally(tail, c);
      assert r == [rows[0]] + rt;
      assert r[1..] == rt;
      forall i, j | 0 <= i < j < |r| ensures r[i].userId < r[j].userId {
        if i == 0 {
          assert r[j] == rt[j - 1];
        } else {
          assert r[i] == rt[i - 1] && r[j] == rt[j - 1];
        }
      }
    }
  }

  lemma {:induction false} NoCallsNoDuration(t: seq<CallLog>, u: int)
    ensures CallsOf(t, u) == 0 ==> DurationOf(t, u) == 0
  {
    if t != [] {
      NoCallsNoDuration(t[..|t| - 1], u);
    }
  }

  /** A user has a group exactly when one of the rows is theirs. */
  lemma {:induction false} CallsOfPositive(t: seq<CallLog>, u: int)
    ensures CallsOf(t, u) > 0 <==> exists k :: 0 <= k < |t| && t[k].userId == u
  {
    if t != [] {
      var front := t[..|t| - 1];
      CallsOfPositive(front, u);
      if exists k :: 0 <= k < |front| && front[k].userId == u {
        var k :| 0 <= k < |front| && front[k].userId == u;
        assert t[k].userId == u;
      }
      if exists k :: 0 <= k < |t| && t[k].userId == u {
        var k :| 0 <= k < |t| && t[k].userId == u;
        if k < |front| {
          assert front[k].userId == u;
        }
      }
    }
  }

  /** The grouping, key by key: user u has a result row exactly when u has calls, and then
      the row holds the count and the summed duration of u's calls. */
  lemma {:induction false} UserAnalyticsFind(t: seq<CallLog>, u: int)
    ensures Ascending(UserAnalytics(t))
    ensures Find(UserAnalytics(t), u) == if CallsOf(t, u) > 0 then Some(Summary(t, u)) else None
  {
    if t != [] {
      var front := t[..|t| - 1];
      UserAnalyticsFind(front, u);
      TallyFind(UserAnalytics(front), t[|t| - 1], u);
      NoCallsNoDuration(front, u);
    }
  }

  /** The analytics report: one row per distinct `userId` that has at least one call (ascending,
      so none twice), users without calls are absent, and every row's count and total duration are
      those of its user's calls. */
  lemma UserAnalyticsCorrect(t: seq<CallLog>)
    ensures Ascending(UserAnalytics(t))
    ensures forall r :: r in UserAnalytics(t) ==> r.numCalls > 0 && r == Summary(t, r.userId)
    ensures forall k :: 0 <= k < |t| ==> Summary(t, t[k].userId) in UserAnalytics(t)
  {
    var rows := UserAnalytics(t);
    UserAnalyticsFind(t, 0);
    forall r | r in rows ensures r.numCalls > 0 && r == Summary(t, r.userId) {
      UserAnalyticsFind(t, r.userId);
      FindInAscending(rows, r.userId);
    }
    forall k | 0 <= k < |t| ensures Summary(t, t[k].userId) in rows {
      UserAnalyticsFind(t, t[k].userId);
      CallsOfPositive(t, t[k].userId);
      FindInAscending(rows, t[k].userId);
    }
  }

  /** A worked example: user 1 with durations 100 and 110, user 2 with 50, gives
      the rows `1,105.0,2` and `2,50.0,1`. */
  lemma UserAnalyticsExample()
    ensures var t := [CallLog(1, "555-0100", 0, 100, "outbound", 1),
                      CallLog(2, "555-0101", 200, 310, "inbound", 1),
                      CallLog(3, "555-0102", 400, 450, "outbound", 2)];
            && UserAnalytics(t) == [UserStats(1, 210, 2), UserStats(2, 50, 1)]
            && AvgDuration(UserAnalytics(t)[0]) == 105.0
            && AvgDuration(UserAnalytics(t)[1]) == 50.0
  {
    var t := [CallLog(1, "555-0100", 0, 100, "outbound", 1),
              CallLog(2, "555-0101", 200, 310, "inbound", 1),
              CallLog(3, "555-0102", 400, 450, "outbound", 2)];
    assert t[..2][..1] == t[..1] && t[..1][..0] == [] && t[..3] == t;
    assert UserAnalytics([]) == [];
    assert UserAnalytics(t[..1]) == Tally([], t[0]) == [UserStats(1, 100, 1)];
    assert UserAnalytics(t[..2]) == Tally([UserStats(1, 100, 1)], t[1]) == [UserStats(1, 210, 2)];
    assert UserAnalytics(t) == Tally([UserStats(1, 210, 2)], t[2]);
    assert Tally([UserStats(1, 210, 2)], t[2]) == [UserStats(1, 210, 2)] + Tally([], t[2]);
  }

  // ---------------------------------------------------------------- ordered export

  /** The ORDER BY key: `userId` first, then `startTime`. */
  predicate KeyLe(a: CallLog, b: CallLog) {
    a.userId < b.userId || (a.userId == b.userId && a.startTime <= b.startTime)
  }

  predicate SortedByKey(s: seq<CallLog>) {
    forall i, j :: 0 <= i < j < |s| ==> KeyLe(s[i], s[j])
  }

  /** Puts c in front of the first row that does not sort before it. */
  function InsertByKey(c: CallLog, s: seq<CallLog>): (r: seq<CallLog>)
    ensures multiset(r) == multiset(s) + multiset{c}
  {
    if s == [] then [c]
    else if KeyLe(c, s[0]) then [c] + s
    else
      assert s == [s[0]] + s[1..];
      [s[0]] + InsertByKey(c, s[1..])
  }

  /** Inserting a row that sorts after a bound into rows that all sort after it keeps them so. */
  lemma {:induction false} InsertByKeyAbove(c: CallLog, s: seq<CallLog>, b: CallLog)
    requires forall j :: 0 <= j < |s| ==> KeyLe(b, s[j])
    requires KeyLe(b, c)
    ensures forall j :: 0 <= j < |InsertByKey(c, s)| ==> KeyLe(b, InsertByKey(c, s)[j])
  {
    if s != [] && !KeyLe(c, s[0]) {
      InsertByKeyAbove(c, s[1..], b);
    }
  }

  /** Inserting into a sorted sequence keeps it sorted. */
  lemma {:induction false} InsertByKeySorted(c: CallLog, s: seq<CallLog>)
    requires SortedByKey(s)
    ensures SortedByKey(InsertByKey(c, s))
  {
    if s != [] && !KeyLe(c, s[0]) {
      var rest := InsertByKey(c, s[1..]);
      InsertByKeySorted(c, s[1..]);
      InsertByKeyAbove(c, s[1..], s[0]);
      var r := InsertByKey(c, s);
      assert r == [s[0]] + rest;
      forall i, j | 0 <= i < j < |r| ensures KeyLe(r[i], r[j]) {
        if i == 0 {
          assert r[j] == rest[j - 1];
        } else {
          assert r[i] == rest[i - 1] && r[j] == rest[j - 1];
        }
      }
    }
  }

  /** The ordered export query: the whole table, non-decreasing by (userId, startTime). SQL does
      not fix the order of rows with equal keys; this model keeps their table order. */
  function OrderedCalls(t: seq<CallLog>): (r: seq<CallLog>)
    ensures multiset(r) == multiset(t)
    ensures SortedByKey(r)
  {
    if t == [] then []
    else
      assert t == [t[0]] + t[1..];
      var rest := OrderedCalls(t[1..]);
      InsertByKeySorted(t[0], rest);
      InsertByKey(t[0], rest)
  }

  /** A worked example: (userId, startTime) pairs (2,500), (1,300), (1,100) come out as
      (1,100), (1,300), (2,500). */
  lemma OrderedCallsExample()
    ensures var t := [CallLog(1, "555-0100", 500, 560, "in", 2),
                      CallLog(2, "555-0101", 300, 320, "out", 1),
                      CallLog(3, "555-0102", 100, 150, "in", 1)];
            OrderedCalls(t) == [t[2], t[1], t[0]]
  {
    var t := [CallLog(1, "555-0100", 500, 560, "in", 2),
              CallLog(2, "555-0101", 300, 320, "out", 1),
              CallLog(3, "555-0102", 100, 150, "in", 1)];
    assert t[1..] == [t[1], t[2]] && t[1..][1..] == [t[2]] && [t[2]][1..] == [];
    assert InsertByKey(t[2], []) == [t[2]];
    assert OrderedCalls([t[2]]) == [t[2]];
    assert InsertByKey(t[1], []) == [t[1]];
    assert InsertByKey(t[1], [t[2]]) == [t[2], t[1]];
    assert OrderedCalls(t[1..]) == [t[2], t[1]];
    assert InsertByKey(t[0], []) == [t[0]];
    assert InsertByKey(t[0], [t[1]]) == [t[1], t[0]];
    assert InsertByKey(t[0], [t[2], t[1]]) == [t[2], t[1], t[0]];
  }

  // ---------------------------------------------------------------- CSV lines

  /** A value handed to `csv.writer.writerow`: a string, an int, or the float AVG produces
      (kept as total and count). */
  datatype Field = Str(s: string) | Int(i: int) | Avg(total: int, count: nat)

  const AnalyticsHeader: seq<string> := ["userId", "avgDuration", "numCalls"]
  const OrderedHeader: seq<string> := ["callId", "phoneNumber", "startTime", "endTime", "direction", "userId"]

  function HeaderLine(h: seq<string>): (line: seq<Field>)
    ensures |line| == |h|
  {
    seq(|h|, k requires 0 <= k < |h| => Str(h[k]))
  }

  function StatsLine(s: UserStats): seq<Field> {
    [Int(s.userId), Avg(s.totalDuration, s.numCalls), Int(s.numCalls)]
  }

  function CallLine(c: CallLog): seq<Field> {
    [Int(c.callId), Str(c.phoneNumber), Int(c.startTime), Int(c.endTime), Str(c.direction), Int(c.userId)]
  }

  /** Reads an analytics data line back; header lines and anything else give `None`. */
  function DecodeStatsLine(line: seq<Field>): Option<UserStats> {
    if |line| == 3 && line[0].Int? && line[1].Avg? && line[2].Int?
       && line[1].count == line[2].i && line[2].i >= 0
    then Some(UserStats(line[0].i, line[1].total, line[2].i))
    else None
  }

  /** Reads an ordered-export data line back; header lines and anything else give `None`. */
  function DecodeCallLine(line: seq<Field>): Option<CallLog> {
    if |line| == 6 && line[0].Int? && line[1].Str? && line[2].Int? && line[3].Int? && line[4].Str? && line[5].Int?
    then Some(CallLog(line[0].i, line[1].s, line[2].i, line[3].i, line[4].s, line[5].i))
    else None
  }

  /** What `write_user_analytics` writes: the header, then one line per result row. */
  function UserAnalyticsCsv(t: seq<CallLog>): seq<seq<Field>> {
    var rows := UserAnalytics(t);
    [HeaderLine(AnalyticsHeader)] + seq(|rows|, k requires 0 <= k < |rows| => StatsLine(rows[k]))
  }

  /** What `write_ordered_calls` writes: the header, then one line per call, in key order. */
  function OrderedCallsCsv(t: seq<CallLog>): seq<seq<Field>> {
    var rows := OrderedCalls(t);
    [HeaderLine(OrderedHeader)] + seq(|rows|, k requires 0 <= k < |rows| => CallLine(rows[k]))
  }

  /** The analytics file is its fixed header followed only by data lines, one per user with
      calls, each reading back as that user's group. */
  lemma UserAnalyticsCsvLines(t: seq<CallLog>)
    ensures |UserAnalyticsCsv(t)| == |UserAnalytics(t)| + 1
    ensures UserAnalyticsCsv(t)[0] == HeaderLine(AnalyticsHeader)
    ensures DecodeStatsLine(UserAnalyticsCsv(t)[0]) == None
    ensures forall k :: 1 <= k < |UserAnalyticsCsv(t)| ==>
              DecodeStatsLine(UserAnalyticsCsv(t)[k]) == Some(UserAnalytics(t)[k - 1])
  {
  }

  /** The ordered file is its fixed header followed only by data lines; read back, the data lines
      are all six fields of every call-log row, each row exactly as often as in the table, in
      non-decreasing (userId, startTime) order. */
  lemma OrderedCallsCsvLines(t: seq<CallLog>)
    ensures |OrderedCallsCsv(t)| == |t| + 1
    ensures OrderedCallsCsv(t)[0] == HeaderLine(OrderedHeader)
    ensures DecodeCallLine(OrderedCallsCsv(t)[0]) == None
    ensures forall k :: 1 <= k < |OrderedCallsCsv(t)| ==>
              DecodeCallLine(OrderedCallsCsv(t)[k]) == Some(OrderedCalls(t)[k - 1])
  {
    var rows := OrderedCalls(t);
    assert |rows| == |multiset(rows)| == |multiset(t)| == |t|;
    var lines := OrderedCallsCsv(t);
    assert lines == [HeaderLine(OrderedHeader)] + seq(|rows|, k requires 0 <= k < |rows| => CallLine(rows[k]));
    forall k | 1 <= k < |lines| ensures DecodeCallLine(lines[k]) == Some(rows[k - 1]) {
      assert lines[k] == CallLine(rows[k - 1]);
    }
  }

  /** The text the writer prints for a string or integer field (`str` of the value). */
  function FieldText(f: Field): string
    requires !f.Avg?
  {
    match f
    case Str(s) => s
    case Int(i) => FormatInt(i)
  }

  /** Export then re-import is lossless: the printed fields of an exported row, minus its
      `callId`, pass the call-log loader's checks and load back the same values. */
  lemma ExportedCallReloads(c: CallLog)
    requires c.phoneNumber != [] && Clean(c.direction)
    ensures var line := CallLine(c);
            CleanCallRow([FieldText(line[1]), FieldText(line[2]), FieldText(line[3]),
                          FieldText(line[4]), FieldText(line[5])]) == Some(Values(c))
  {
    var line := CallLine(c);
    CleanCallRowSpec([FieldText(line[1]), FieldText(line[2]), FieldText(line[3]),
                      FieldText(line[4]), FieldText(line[5])]);
    ParseFormatRoundTrip(c.startTime);
    ParseFormatRoundTrip(c.endTime);
    ParseFormatRoundTrip(c.userId);
  }
}
