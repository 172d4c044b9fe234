/**
 * The in-memory database the program works on, as an object whose two
 * tables the loaders update in place, and the four operations in the order
 * the entry point runs them.
 */
module Storage {
  import opened Wrappers
  import opened Text
  import opened Ingest
  import opened Reports

  class Store {
    /** The `users` table, in insertion order. */
    var users: seq<User>
    /** The `callLogs` table, in insertion (rowid) order. */
    var callLogs: seq<CallLog>

    /** What every loader run leaves true of the tables. */
    ghost predicate Valid()
      reads this
    {
      UsersWellFormed(users) && CallLogsWellFormed(callLogs)
    }

    /** The two `CREATE TABLE` statements: both tables start empty. */
    constructor ()
      ensures Valid()
      ensures users == [] && callLogs == []
    {
      users := [];
      callLogs := [];
    }

    /** `load_and_clean_users` over the rows of the users CSV (header first). Returns the number
        of inserted users it reports, or `None` when the file is skipped: no header line (an
        empty file) or a header other than `firstName,lastName`, which leave the table as it is. */
    method LoadAndCleanUsers(rows: seq<seq<string>>) returns (inserted: Option<nat>)
      requires Valid()
      modifies this
      ensures Valid()
      ensures users == UsersAfterLoad(old(users), rows)
      ensures callLogs == old(callLogs)
      ensures inserted == if UsersHeaderAccepted(rows) then Some(|users|) else None
    {
      if |rows| == 0 || rows[0] != UsersHeader {
        return None;
      }
      users := [];
      var userId := 1;
      var validCount := 0;
      var i := 1;
      while i < |rows|
        invariant 1 <= i <= |rows|
        invariant users == NumberUsers(KeptUsers(rows[1..i]), 1)
        invariant userId == |users| + 1 && validCount == |users|
        invariant callLogs == old(callLogs)
      {
        var row := StripFields(rows[i]);
        UserLoadStep(rows, i, users);
        if |row| == 2 {
          var firstName, lastName := row[0], row[1];
          if firstName != [] && lastName != [] {
            users := users + [User(userId, firstName, lastName)];
            userId := userId + 1;
            validCount := validCount + 1;
          }
        }
        i := i + 1;
      }
      assert rows[1..i] == rows[1..];
      UsersAfterLoadWellFormed(old(users), rows);
      inserted := Some(validCount);
    }

    /** `load_and_clean_call_logs` over the rows of the call-log CSV: the first row is dropped
        unread, every later row that passes the checks is inserted at the next rowid, and a
        skipped row does not stop the rows after it. An empty file changes nothing. */
    method LoadAndCleanCallLogs(rows: seq<seq<string>>)
      requires Valid()
      modifies this
      ensures Valid()
      ensures callLogs == CallLogsAfterLoad(old(callLogs), rows)
      ensures users == old(users)
    {
      if |rows| == 0 {
        return;
      }
      ghost var before := callLogs;
      var i := 1;
      while i < |rows|
        invariant 1 <= i <= |rows|
        invariant callLogs == before + NumberCalls(KeptCalls(rows[1..i]), NextCallId(before))
        invariant users == old(users)
      {
        var cleaned := CleanCallRow(rows[i]);
        CallLoadStep(before, rows, i, callLogs);
        if cleaned.Some? {
          callLogs := callLogs + [Stored(cleaned.value, NextCallId(callLogs))];
        }
        i := i + 1;
      }
      assert rows[1..i] == rows[1..];
      CallLogsAfterLoadWellFormed(old(callLogs), rows);
    }

    /** `write_user_analytics`: runs the grouping query, then emits the header and one line per
        result row. Reads the tables and changes neither. */
    method WriteUserAnalytics() returns (lines: seq<seq<Field>>)
      ensures lines == UserAnalyticsCsv(callLogs)
    {
      var rows := UserAnalytics(callLogs);
      lines := [HeaderLine(AnalyticsHeader)];
      var k := 0;
      while k < |rows|
        invariant 0 <= k <= |rows|
        invariant |lines| == k + 1 && lines[0] == HeaderLine(AnalyticsHeader)
        invariant forall j :: 0 <= j < k ==> lines[j + 1] == StatsLine(rows[j])
      {
        lines := lines + [StatsLine(rows[k])];
        k := k + 1;
      }
    }

    /** `write_ordered_calls`: runs the ordering query, then emits the header and one line per
        call-log row. Reads the tables and changes neither. */
    method WriteOrderedCalls() returns (lines: seq<seq<Field>>)
      ensures lines == OrderedCallsCsv(callLogs)
    {
      var rows := OrderedCalls(callLogs);
      lines := [HeaderLine(OrderedHeader)];
      var k := 0;
      while k < |rows|
        invariant 0 <= k <= |rows|
        invariant |lines| == k + 1 && lines[0] == HeaderLine(OrderedHeader)
        invariant forall j :: 0 <= j < k ==> lines[j + 1] == CallLine(rows[j])
      {
        lines := lines + [CallLine(rows[k])];
        k := k + 1;
      }
    }
  }

  /** The entry point's sequence: create the tables, load users, load call logs, then write the
      analytics and the ordered export from what was loaded. */
  method Run(usersCsv: seq<seq<string>>, callLogsCsv: seq<seq<string>>)
    returns (analytics: seq<seq<Field>>, ordered: seq<seq<Field>>)
    ensures analytics == UserAnalyticsCsv(CallLogsAfterLoad([], callLogsCsv))
    ensures ordered == OrderedCallsCsv(CallLogsAfterLoad([], callLogsCsv))
  {
    var store := new Store();
    var _ := store.LoadAndCleanUsers(usersCsv);
    store.LoadAndCleanCallLogs(callLogsCsv);
    analytics := store.WriteUserAnalytics();
    ordered := store.WriteOrderedCalls();
  }
}
