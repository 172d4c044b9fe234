/**
 * The two tables and the row-cleaning rules of the loaders, stated on values:
 * which CSV rows survive, what they become, and what each table holds after
 * a load. The class in Storage runs these rules step by step.
 */
module Ingest {
  import opened Wrappers
  import opened Text

  /** A row of the `users` table. */
  datatype User = User(userId: int, firstName: string, lastName: string)

  /** The values one cleaned call-log row hands to the INSERT; the store adds the `callId`. */
  datatype CallInsert = CallInsert(phoneNumber: string, startTime: int, endTime: int, direction: string, userId: int)

  /** A row of the `callLogs` table. */
  datatype CallLog = CallLog(callId: int, phoneNumber: string, startTime: int, endTime: int, direction: string, userId: int)

  /** The only header the user loader accepts, compared field by field without stripping. */
  const UsersHeader: seq<string> := ["firstName", "lastName"]

  /** Growing a slice by one element. */
  lemma SliceSnoc<T>(s: seq<T>, i: nat, j: nat)
    requires i <= j < |s|
    ensures s[i..j + 1] == s[i..j] + [s[j]]
  {
  }

  /** A stored name or direction: non-empty and already stripped. */
  predicate Clean(s: string) {
    s != [] && Strip(s) == s
  }

  // ---------------------------------------------------------------- users

  /** The list comprehension that strips every field of a row. */
  function StripFields(row: seq<string>): (r: seq<string>)
    ensures |r| == |row|
  {
    seq(|row|, k requires 0 <= k < |row| => Strip(row[k]))
  }

  /** One data row of the users CSV: the stripped first and last name when the row has exactly
      two fields and neither is blank, otherwise `None` (the row is skipped). */
  function CleanUserRow(row: seq<string>): Option<(string, string)> {
    var fields := StripFields(row);
    if |fields| != 2 then None
    else if fields[0] != [] && fields[1] != [] then Some((fields[0], fields[1]))
    else None
  }

  /** A user row is kept exactly when it has two fields that are not blank once stripped; the
      kept names are the stripped fields, so they are clean. */
  lemma CleanUserRowSpec(row: seq<string>)
    ensures CleanUserRow(row).Some? <==> |row| == 2 && Strip(row[0]) != [] && Strip(row[1]) != []
    ensures CleanUserRow(row).Some? ==>
              && CleanUserRow(row).value == (Strip(row[0]), Strip(row[1]))
              && Clean(CleanUserRow(row).value.0) && Clean(CleanUserRow(row).value.1)
  {
    if |row| == 2 {
      TrimIdempotent(StripSpaces, row[0]);
      TrimIdempotent(StripSpaces, row[1]);
    }
  }

  /** The names of the kept user rows, in input order (the reference definition, from the front). */
  function KeptUsers(body: seq<seq<string>>): seq<(string, string)> {
    if body == [] then []
    else
      match CleanUserRow(body[0])
      case Some(names) => [names] + KeptUsers(body[1..])
      case None => KeptUsers(body[1..])
  }

  /** Gives the k-th name pair the id `firstId + k`. */
  function NumberUsers(names: seq<(string, string)>, firstId: int): (r: seq<User>)
    ensures |r| == |names|
  {
    seq(|names|, k requires 0 <= k < |names| => User(firstId + k, names[k].0, names[k].1))
  }

  lemma NumberUsersSnoc(names: seq<(string, string)>, p: (string, string), firstId: int)
    ensures NumberUsers(names + [p], firstId) == NumberUsers(names, firstId) + [User(firstId + |names|, p.0, p.1)]
  {
  }

  /** One iteration of the user loader: row i, once stripped, is inserted with the next id when
      it has two non-empty fields, extending the table built from rows 1..i-1 to that of 1..i. */
  lemma UserLoadStep(rows: seq<seq<string>>, i: nat, cur: seq<User>)
    requires 1 <= i < |rows|
    requires cur == NumberUsers(KeptUsers(rows[1..i]), 1)
    ensures var row := StripFields(rows[i]);
            (if |row| == 2 && row[0] != [] && row[1] != []
             then cur + [User(|cur| + 1, row[0], row[1])] else cur)
              == NumberUsers(KeptUsers(rows[1..i + 1]), 1)
  {
    SliceSnoc(rows, 1, i);
    KeptUsersSnoc(rows[1..i], rows[i]);
    var row := StripFields(rows[i]);
    if |row| == 2 && row[0] != [] && row[1] != [] {
      NumberUsersSnoc(KeptUsers(rows[1..i]), (row[0], row[1]), 1);
    }
  }

  predicate UsersHeaderAccepted(rows: seq<seq<string>>) {
    |rows| > 0 && rows[0] == UsersHeader
  }

  /** The users table after one run of the user loader over `rows` (header included). An empty
      file or a wrong header leaves the table as it was; otherwise the old rows are deleted and
      the kept rows are numbered 1, 2, 3, ... */
  function UsersAfterLoad(users: seq<User>, rows: seq<seq<string>>): seq<User> {
    if UsersHeaderAccepted(rows) then NumberUsers(KeptUsers(rows[1..]), 1) else users
  }

  /** The shape every users table the loader produces has: ids 1..n in order, names non-empty
      and already stripped. */
  ghost predicate UsersWellFormed(users: seq<User>) {
    forall k :: 0 <= k < |users| ==>
      users[k].userId == k + 1 && Clean(users[k].firstName) && Clean(users[k].lastName)
  }

  /** Cleaning is compositional: the kept rows of two consecutive chunks of input are the kept
      rows of the first chunk followed by those of the second. So a bad row never disturbs the
      rows around it. */
  lemma {:induction false} KeptUsersAppend(a: seq<seq<string>>, b: seq<seq<string>>)
    ensures KeptUsers(a + b) == KeptUsers(a) + KeptUsers(b)
  {
    if a != [] {
      assert (a + b)[0] == a[0];
      assert (a + b)[1..] == a[1..] + b;
      KeptUsersAppend(a[1..], b);
    } else {
      assert a + b == b;
    }
  }

  /** Appending one row to the input appends its cleaned names, or nothing when it is skipped:
      a skipped row does not use up an id. */
  lemma KeptUsersSnoc(body: seq<seq<string>>, row: seq<string>)
    ensures KeptUsers(body + [row]) ==
              KeptUsers(body) + (if CleanUserRow(row).Some? then [CleanUserRow(row).value] else [])
  {
    KeptUsersAppend(body, [row]);
    assert [row][1..] == [];
  }

  /** Every kept pair is two clean names, and there are at most as many pairs as rows. */
  lemma {:induction false} KeptUsersClean(body: seq<seq<string>>)
    ensures |KeptUsers(body)| <= |body|
    ensures forall p :: p in KeptUsers(body) ==> Clean(p.0) && Clean(p.1)
  {
    if body != [] {
      KeptUsersClean(body[1..]);
      CleanUserRowSpec(body[0]);
      match CleanUserRow(body[0])
      case Some(p) =>
        assert KeptUsers(body) == [p] + KeptUsers(body[1..]);
      case None =>
    }
  }

  /** Input order: when row i survives cleaning, its names sit in the kept list right after the
      names of the rows before it, so it gets the id one past theirs. */
  lemma KeptUsersAt(body: seq<seq<string>>, i: nat)
    requires i < |body| && CleanUserRow(body[i]).Some?
    ensures |KeptUsers(body[..i])| < |KeptUsers(body)|
    ensures KeptUsers(body)[|KeptUsers(body[..i])|] == CleanUserRow(body[i]).value
  {
    assert body == body[..i] + ([body[i]] + body[i + 1..]);
    KeptUsersAppend(body[..i], [body[i]] + body[i + 1..]);
    KeptUsersAppend([body[i]], body[i + 1..]);
    assert [body[i]][1..] == [];
  }

  /** After a load with an accepted header the table is well formed, whatever it held before. */
  lemma UsersAfterLoadWellFormed(users: seq<User>, rows: seq<seq<string>>)
    requires UsersHeaderAccepted(rows)
    ensures UsersWellFormed(UsersAfterLoad(users, rows))
    ensures |UsersAfterLoad(users, rows)| < |rows|
  {
    KeptUsersClean(rows[1..]);
  }

  /** The users table is cleared first, so loading the same file again gives the same table. */
  lemma UsersLoadIdempotent(users: seq<User>, rows: seq<seq<string>>)
    ensures UsersAfterLoad(UsersAfterLoad(users, rows), rows) == UsersAfterLoad(users, rows)
  {
  }

  // ---------------------------------------------------------------- call logs

  /** One data row of the call-log CSV: kept when it has exactly five fields, fields 1, 2 and 4
      are integers, the raw phone number is non-empty and the stripped direction is non-empty. */
  function CleanCallRow(row: seq<string>): Option<CallInsert>
  {
    if |row| != 5 then None
    else
      match (ParseInt(row[1]), ParseInt(row[2]), ParseInt(row[4]))
      case (Some(startTime), Some(endTime), Some(userId)) =>
        var phoneNumber := row[0];
        var direction := Strip(row[3]);
        if phoneNumber != [] && direction != [] then
          Some(CallInsert(phoneNumber, startTime, endTime, direction, userId))
        else None
      case _ => None
  }

  /** A row whose field 1, 2 or 4 starts with an information separator \x1c..\x1f is skipped:
      `int()` does not skip that character, although `strip()` would. */
  lemma SeparatorFieldSkipsCallRow(row: seq<string>, k: nat)
    requires |row| == 5 && (k == 1 || k == 2 || k == 4)
    requires row[k] != [] && 28 <= row[k][0] as int <= 31
    ensures CleanCallRow(row) == None
  {
    assert row[k] == [row[k][0]] + row[k][1..];
    ParseIntRejectsSeparator(row[k][0], row[k][1..]);
  }

  /** A call-log row is kept exactly when it has five fields, fields 1, 2 and 4 parse as
      integers, field 0 is non-empty as it stands and field 3 is non-empty once stripped. The
      stored values are those parsed integers, the raw phone number and the stripped direction. */
  lemma CleanCallRowSpec(row: seq<string>)
    ensures CleanCallRow(row).Some? <==>
              && |row| == 5
              && ParseInt(row[1]).Some? && ParseInt(row[2]).Some? && ParseInt(row[4]).Some?
              && row[0] != [] && Strip(row[3]) != []
    ensures CleanCallRow(row).Some? ==>
              && CleanCallRow(row).value == CallInsert(row[0], ParseInt(row[1]).value, ParseInt(row[2]).value,
                                                       Strip(row[3]), ParseInt(row[4]).value)
              && Clean(CleanCallRow(row).value.direction)
  {
    if |row| == 5 {
      TrimIdempotent(StripSpaces, row[3]);
    }
  }

  /** The kept call rows, in input order. */
  function KeptCalls(body: seq<seq<string>>): seq<CallInsert> {
    if body == [] then []
    else
      match CleanCallRow(body[0])
      case Some(v) => [v] + KeptCalls(body[1..])
      case None => KeptCalls(body[1..])
  }

  function Stored(v: CallInsert, callId: int): CallLog {
    CallLog(callId, v.phoneNumber, v.startTime, v.endTime, v.direction, v.userId)
  }

  /** The inserted values of a stored row: everything but its `callId`. */
  function Values(c: CallLog): CallInsert {
    CallInsert(c.phoneNumber, c.startTime, c.endTime, c.direction, c.userId)
  }

  function ValuesOf(t: seq<CallLog>): (r: seq<CallInsert>)
    ensures |r| == |t|
  {
    seq(|t|, k requires 0 <= k < |t| => Values(t[k]))
  }

  /** The largest `callId` in the table, or 0 for an empty table. Because the maximum starts at
      0, a table whose ids are all 0 or below would get 1 next, where SQLite gives
      `max(rowid) + 1`; such a table never arises, since every loaded id is at least 1
      (`CallLogsWellFormed`). */
  function MaxCallId(t: seq<CallLog>): (m: int)
    ensures m >= 0
  {
    if t == [] then 0
    else
      var m := MaxCallId(t[..|t| - 1]);
      if t[|t| - 1].callId > m then t[|t| - 1].callId else m
  }

  /** The rowid SQLite gives a row inserted without one into an `INTEGER PRIMARY KEY` column:
      one more than the largest in the table, 1 for an empty table. */
  function NextCallId(t: seq<CallLog>): (id: int)
    ensures id >= 1
  {
    MaxCallId(t) + 1
  }

  /** The next id is fresh: larger than every id already in the table. */
  lemma {:induction false} NextCallIdFresh(t: seq<CallLog>)
    ensures forall k :: 0 <= k < |t| ==> t[k].callId < NextCallId(t)
  {
    if t != [] {
      var front := t[..|t| - 1];
      NextCallIdFresh(front);
      forall k | 0 <= k < |t| ensures t[k].callId < NextCallId(t) {
        if k < |front| {
          assert t[k] == front[k];
        }
      }
    }
  }

  /** Gives the k-th inserted row the id `firstId + k`. */
  function NumberCalls(vs: seq<CallInsert>, firstId: int): (r: seq<CallLog>)
    ensures |r| == |vs|
  {
    seq(|vs|, k requires 0 <= k < |vs| => Stored(vs[k], firstId + k))
  }

  /** The callLogs table after one run of the call-log loader over `rows`: the header row is
      dropped unread, nothing is deleted, and the kept rows are appended with the ids SQLite
      hands out one insert at a time. An empty file changes nothing. */
  function CallLogsAfterLoad(t: seq<CallLog>, rows: seq<seq<string>>): seq<CallLog> {
    if rows == [] then t else t + NumberCalls(KeptCalls(rows[1..]), NextCallId(t))
  }

  /** The shape of every callLogs table the loader produces: ids positive and strictly
      increasing in insertion order, phone numbers non-empty, directions non-empty and stripped. */
  ghost predicate CallLogsWellFormed(t: seq<CallLog>) {
    && (forall i, j :: 0 <= i < j < |t| ==> t[i].callId < t[j].callId)
    && (forall k :: 0 <= k < |t| ==> t[k].callId >= 1)
    && (forall k :: 0 <= k < |t| ==> t[k].phoneNumber != [] && Clean(t[k].direction))
  }

  lemma {:induction false} KeptCallsAppend(a: seq<seq<string>>, b: seq<seq<string>>)
    ensures KeptCalls(a + b) == KeptCalls(a) + KeptCalls(b)
  {
    if a != [] {
      assert (a + b)[0] == a[0];
      assert (a + b)[1..] == a[1..] + b;
      KeptCallsAppend(a[1..], b);
    } else {
      assert a + b == b;
    }
  }

  lemma KeptCallsSnoc(body: seq<seq<string>>, row: seq<string>)
    ensures KeptCalls(body + [row]) ==
              KeptCalls(body) + (if CleanCallRow(row).Some? then [CleanCallRow(row).value] else [])
  {
    KeptCallsAppend(body, [row]);
    assert [row][1..] == [];
  }

  /** Every kept call row has a non-empty phone number and a non-empty, stripped direction. */
  lemma {:induction false} KeptCallsClean(body: seq<seq<string>>)
    ensures |KeptCalls(body)| <= |body|
    ensures forall v :: v in KeptCalls(body) ==> v.phoneNumber != [] && Clean(v.direction)
  {
    if body != [] {
      KeptCallsClean(body[1..]);
      CleanCallRowSpec(body[0]);
      match CleanCallRow(body[0])
      case Some(v) =>
        assert KeptCalls(body) == [v] + KeptCalls(body[1..]);
      case None =>
    }
  }

  /** Inserting one cleaned row at the id SQLite picks moves the next id on by exactly one. */
  lemma NextCallIdAfterInsert(t: seq<CallLog>, v: CallInsert)
    ensures NextCallId(t + [Stored(v, NextCallId(t))]) == NextCallId(t) + 1
  {
    assert (t + [Stored(v, NextCallId(t))])[..|t|] == t;
  }

  /** The dense numbering the loader builds, extended by one insert at SQLite's next id. */
  lemma NumberCallsSnoc(t: seq<CallLog>, vs: seq<CallInsert>, v: CallInsert)
    ensures var u := t + NumberCalls(vs, NextCallId(t));
            u + [Stored(v, NextCallId(u))] == t + NumberCalls(vs + [v], NextCallId(t))
  {
    var first := NextCallId(t);
    var u := t + NumberCalls(vs, first);
    NextCallIdDense(t, vs);
    assert NextCallId(u) == first + |vs|;
    assert NumberCalls(vs, first) + [Stored(v, first + |vs|)] == NumberCalls(vs + [v], first);
  }

  /** Appending a densely numbered run starting at the next id moves the next id past the run. */
  lemma {:induction false} NextCallIdDense(t: seq<CallLog>, vs: seq<CallInsert>)
    ensures NextCallId(t + NumberCalls(vs, NextCallId(t))) == NextCallId(t) + |vs|
  {
    if vs == [] {
      assert t + NumberCalls(vs, NextCallId(t)) == t;
    } else {
      var front := vs[..|vs| - 1];
      var first := NextCallId(t);
      NextCallIdDense(t, front);
      var u := t + NumberCalls(front, first);
      assert NumberCalls(vs, first) == NumberCalls(front, first) + [Stored(vs[|vs| - 1], first + |front|)];
      assert t + NumberCalls(vs, first) == u + [Stored(vs[|vs| - 1], NextCallId(u))];
      NextCallIdAfterInsert(u, vs[|vs| - 1]);
    }
  }

  /** Appending a densely numbered run: the old rows stay first and unchanged, the new rows carry
      the given values in order, and their ids run from `first` up. */
  lemma AppendNumbered(t: seq<CallLog>, vs: seq<CallInsert>, first: int)
    ensures var u := t + NumberCalls(vs, first);
            && |u| == |t| + |vs|
            && u[..|t|] == t
            && ValuesOf(u[|t|..]) == vs
            && (forall k :: |t| <= k < |u| ==> u[k].callId == first + (k - |t|))
  {
    var u := t + NumberCalls(vs, first);
    assert u[|t|..] == NumberCalls(vs, first);
  }

  /** A call-log load only appends: the old rows stay first and unchanged, the new rows are the
      kept input rows in input order, and each new row gets a fresh id larger than every old one
      and than every earlier new one. Nothing about `userId` is checked against the users table. */
  lemma CallLogsLoadAppends(t: seq<CallLog>, rows: seq<seq<string>>)
    requires rows != []
    ensures |CallLogsAfterLoad(t, rows)| == |t| + |KeptCalls(rows[1..])|
    ensures CallLogsAfterLoad(t, rows)[..|t|] == t
    ensures ValuesOf(CallLogsAfterLoad(t, rows)[|t|..]) == KeptCalls(rows[1..])
    ensures forall k :: |t| <= k < |CallLogsAfterLoad(t, rows)| ==>
              CallLogsAfterLoad(t, rows)[k].callId == NextCallId(t) + (k - |t|)
    ensures forall i, k :: 0 <= i < |t| <= k < |CallLogsAfterLoad(t, rows)| ==>
              CallLogsAfterLoad(t, rows)[i].callId < CallLogsAfterLoad(t, rows)[k].callId
  {
    var kept := KeptCalls(rows[1..]);
    var first := NextCallId(t);
    AppendNumbered(t, kept, first);
    NextCallIdFresh(t);
    var u := t + NumberCalls(kept, first);
    assert CallLogsAfterLoad(t, rows) == u;
    forall i, k | 0 <= i < |t| <= k < |u| ensures u[i].callId < u[k].callId {
      assert u[i] == t[i];
    }
  }

  /** The loader keeps the table well formed. */
  lemma CallLogsAfterLoadWellFormed(t: seq<CallLog>, rows: seq<seq<string>>)
    requires CallLogsWellFormed(t)
    ensures CallLogsWellFormed(CallLogsAfterLoad(t, rows))
  {
    if rows != [] {
      var kept := KeptCalls(rows[1..]);
      KeptCallsClean(rows[1..]);
      var first := NextCallId(t);
      AppendNumbered(t, kept, first);
      NextCallIdFresh(t);
      var u := t + NumberCalls(kept, first);
      assert CallLogsAfterLoad(t, rows) == u;
      forall k | 0 <= k < |u| ensures u[k].callId >= 1 && u[k].phoneNumber != [] && Clean(u[k].direction) {
        if k < |t| {
          assert u[k] == t[k];
        } else {
          assert u[k] == Stored(kept[k - |t|], first + (k - |t|));
          assert kept[k - |t|] in kept;
        }
      }
      forall i, j | 0 <= i < j < |u| ensures u[i].callId < u[j].callId {
        if j < |t| {
          assert u[i] == t[i] && u[j] == t[j];
        } else if i < |t| {
          assert u[i] == t[i];
        }
      }
    }
  }

  /** One iteration of the call-log loader: inserting row i when it cleans (at SQLite's next
      rowid) extends the table built from rows 1..i-1 to the table built from rows 1..i. */
  lemma CallLoadStep(t: seq<CallLog>, rows: seq<seq<string>>, i: nat, cur: seq<CallLog>)
    requires 1 <= i < |rows|
    requires cur == t + NumberCalls(KeptCalls(rows[1..i]), NextCallId(t))
    ensures CleanCallRow(rows[i]).Some? ==>
              cur + [Stored(CleanCallRow(rows[i]).value, NextCallId(cur))]
                == t + NumberCalls(KeptCalls(rows[1..i + 1]), NextCallId(t))
    ensures CleanCallRow(rows[i]).None? ==>
              cur == t + NumberCalls(KeptCalls(rows[1..i + 1]), NextCallId(t))
  {
    var front := rows[1..i];
    SliceSnoc(rows, 1, i);
    KeptCallsSnoc(front, rows[i]);
    match CleanCallRow(rows[i])
    case Some(v) =>
      assert KeptCalls(rows[1..i + 1]) == KeptCalls(front) + [v];
      NumberCallsSnoc(t, KeptCalls(front), v);
    case None =>
      assert KeptCalls(rows[1..i + 1]) == KeptCalls(front);
  }

  /** Call logs are never cleared: loading the same file twice stores every kept row twice. */
  lemma CallLogsLoadTwiceDuplicates(t: seq<CallLog>, rows: seq<seq<string>>)
    requires rows != []
    ensures ValuesOf(CallLogsAfterLoad(CallLogsAfterLoad(t, rows), rows)) ==
              ValuesOf(t) + KeptCalls(rows[1..]) + KeptCalls(rows[1..])
  {
    var kept := KeptCalls(rows[1..]);
    var once := CallLogsAfterLoad(t, rows);
    var twice := CallLogsAfterLoad(once, rows);
    CallLogsLoadAppends(t, rows);
    CallLogsLoadAppends(once, rows);
    assert |twice| == |t| + |kept| + |kept|;
    forall k | 0 <= k < |twice|
      ensures ValuesOf(twice)[k] == (ValuesOf(t) + kept + kept)[k]
    {
      if k < |t| {
        assert twice[k] == once[k] == t[k];
      } else if k < |once| {
        assert twice[k] == once[k];
        assert once[k] == once[|t|..][k - |t|];
        assert ValuesOf(once[|t|..])[k - |t|] == kept[k - |t|];
      } else {
        assert twice[k] == twice[|once|..][k - |once|];
        assert ValuesOf(twice[|once|..])[k - |once|] == kept[k - |once|];
      }
    }
  }
}
