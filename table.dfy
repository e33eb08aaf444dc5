/** The `bills` table as SQLite keeps it: rows by id, the AUTOINCREMENT
    counter, the UNIQUE date index and the timestamps. Both front ends run
    their statements against one `BillTable`. */
module Table {
  import opened Text
  import opened Schema

  /** Each bill's date sorts strictly after the next one's: the order of
      `ORDER BY date DESC` once dates are unique. */
  ghost predicate StrictlyByDateDesc(s: seq<Bill>)
  {
    forall i, j | 0 <= i < j < |s| :: TextLess(s[j].date, s[i].date)
  }

  /** A strictly ordered sequence holds no bill twice. */
  lemma StrictlyByDateDescDistinct(s: seq<Bill>, i: nat, j: nat)
    requires StrictlyByDateDesc(s) && i < |s| && j < |s| && i != j
    ensures s[i] != s[j]
  {
    if i < j {
      TextLessIrreflexive(s[i].date);
    } else {
      TextLessIrreflexive(s[j].date);
    }
  }

  /** Puts `b` where `ORDER BY date DESC` places it among `s`. */
  function InsertByDateDesc(b: Bill, s: seq<Bill>): (r: seq<Bill>)
    requires StrictlyByDateDesc(s)
    requires forall i | 0 <= i < |s| :: s[i].date != b.date
    ensures StrictlyByDateDesc(r)
    ensures |r| == |s| + 1
    ensures forall x :: x in r <==> x == b || x in s
  {
    if s == [] then [b]
    else if TextLess(s[0].date, b.date) then
      assert forall j | 0 <= j < |s| :: TextLess(s[j].date, b.date) by {
        forall j | 0 < j < |s| ensures TextLess(s[j].date, b.date) {
          TextLessTransitive(s[j].date, s[0].date, b.date);
        }
      }
      [b] + s
    else
      var tail := InsertByDateDesc(b, s[1..]);
      assert TextLess(b.date, s[0].date) by {
        TextLessTotal(b.date, s[0].date);
      }
      assert forall x | x in tail :: TextLess(x.date, s[0].date);
      [s[0]] + tail
  }

  /** The row count a `LIMIT` leaves of `n` rows. */
  function Limited(n: nat, limit: Option<nat>): (k: nat)
    ensures k <= n
    ensures limit.None? ==> k == n
    ensures limit.Some? ==> k <= limit.value && (k == n || k == limit.value)
  {
    match limit
    case None => n
    case Some(l) => if l < n then l else n
  }

  class BillTable {
    /** The rows, by id. */
    var rows: map<nat, Bill>
    /** The table's `sqlite_sequence` entry: the largest id ever assigned. */
    var lastId: nat
    /** The latest `CURRENT_TIMESTAMP` handed out; every successful write
        takes a new, larger one. */
    var clock: nat

    ghost predicate Valid()
      reads this
    {
      && (forall id | id in rows :: rows[id].id == id && 1 <= id <= lastId)
      && (forall id | id in rows :: rows[id].createdAt <= rows[id].updatedAt <= clock)
      && DatesUnique(rows)
    }

    /** `CREATE TABLE IF NOT EXISTS bills (...)` on a fresh database. */
    constructor ()
      ensures Valid()
      ensures rows == map[] && lastId == 0 && clock == 0
    {
      rows := map[];
      lastId := 0;
      clock := 0;
    }

    /** `SELECT * FROM bills WHERE id = ?` followed by `fetchone()`. */
    method SelectById(id: nat) returns (r: Option<Bill>)
      requires Valid()
      ensures r.Some? <==> id in rows
      ensures r.Some? ==> r.value == rows[id] && r.value.id == id
    {
      if id in rows {
        r := Some(rows[id]);
      } else {
        r := None;
      }
    }

    /** `SELECT * FROM bills ORDER BY date DESC [LIMIT n]` followed by
        `fetchall()`: the `Limited(|rows|, limit)` rows with the latest
        dates, latest first. */
    method SelectByDateDesc(limit: Option<nat>) returns (r: seq<Bill>)
      requires Valid()
      ensures |r| == Limited(|rows|, limit)
      ensures StrictlyByDateDesc(r)
      ensures forall i | 0 <= i < |r| :: r[i].id in rows && rows[r[i].id] == r[i]
      ensures forall id, i | id in rows && rows[id] !in r && 0 <= i < |r| :: TextLess(rows[id].date, r[i].date)
      ensures limit.None? ==> forall id | id in rows :: rows[id] in r
    {
      var sorted := SortByDateDesc();
      var n := Limited(|rows|, limit);
      r := sorted[..n];
      assert limit.None? ==> r == sorted;
      forall id, i | id in rows && rows[id] !in r && 0 <= i < |r|
        ensures TextLess(rows[id].date, r[i].date)
      {
        var k :| 0 <= k < |sorted| && sorted[k] == rows[id];
        assert k >= n > i;
      }
    }

    /** Every row once, ordered by date, latest first: the sort SQLite
        performs for `ORDER BY date DESC`. */
    method SortByDateDesc() returns (sorted: seq<Bill>)
      requires Valid()
      ensures |sorted| == |rows|
      ensures StrictlyByDateDesc(sorted)
      ensures forall i | 0 <= i < |sorted| :: sorted[i].id in rows && rows[sorted[i].id] == sorted[i]
      ensures forall id | id in rows :: rows[id] in sorted
    {
      var remaining := rows.Keys;
      sorted := [];
      while remaining != {}
        invariant remaining <= rows.Keys
        invariant |sorted| + |remaining| == |rows|
        invariant StrictlyByDateDesc(sorted)
        invariant forall i | 0 <= i < |sorted| :: sorted[i].id in rows && sorted[i].id !in remaining && rows[sorted[i].id] == sorted[i]
        invariant forall id | id in rows && id !in remaining :: rows[id] in sorted
        decreases remaining
      {
        var id :| id in remaining;
        var b := rows[id];
        assert forall i | 0 <= i < |sorted| :: sorted[i].date != b.date by {
          forall i | 0 <= i < |sorted| ensures sorted[i].date != b.date {
            assert sorted[i].id != id;
          }
        }
        var sorted' := InsertByDateDesc(b, sorted);
        assert forall i | 0 <= i < |sorted'| :: sorted'[i] == b || sorted'[i] in sorted;
        sorted := sorted';
        remaining := remaining - {id};
      }
    }

    /** `INSERT INTO bills (date, <the eight amounts>) VALUES (...)` and
        `commit()`. A NULL date breaks NOT NULL and a date some row holds
        breaks UNIQUE; either way the statement is rolled back and the
        table, its AUTOINCREMENT counter included, is as before. Otherwise
        the new row takes the id after every id ever assigned (the
        statement's `lastrowid`) and the current time twice. */
    method Insert(date: Option<string>, amounts: Amounts) returns (r: SqlResult<nat>)
      requires Valid()
      modifies this
      ensures Valid()
      ensures date.None? ==> r == IntegrityError(NotNull)
      ensures date.Some? && DateHeld(old(rows), date.value) ==> r == IntegrityError(Unique)
      ensures r.IntegrityError? ==> unchanged(this)
      ensures date.Some? && !DateHeld(old(rows), date.value) ==>
        && r == Done(old(lastId) + 1)
        && lastId == old(lastId) + 1
        && clock == old(clock) + 1
        && rows == old(rows)[lastId := Bill(lastId, date.value, amounts, clock, clock)]
    {
      if date.None? {
        return IntegrityError(NotNull);
      }
      if exists k | k in rows :: rows[k].date == date.value {
        return IntegrityError(Unique);
      }
      lastId := lastId + 1;
      clock := clock + 1;
      rows := rows[lastId := Bill(lastId, date.value, amounts, clock, clock)];
      r := Done(lastId);
    }

    /** `UPDATE bills SET date = ?, <the eight amounts>, updated_at =
        CURRENT_TIMESTAMP WHERE id = ?` and `commit()`; the result is the
        number of rows changed. With no row `id` nothing is written and no
        constraint is checked. A NULL date, or one another row holds, is
        refused and rolled back. Otherwise the row keeps its id and
        `created_at`, takes the new date and amounts and a new `updated_at`. */
    method Update(id: nat, date: Option<string>, amounts: Amounts) returns (r: SqlResult<nat>)
      requires Valid()
      modifies this
      ensures Valid()
      ensures id !in old(rows) ==> r == Done(0) && unchanged(this)
      ensures id in old(rows) && date.None? ==> r == IntegrityError(NotNull)
      ensures id in old(rows) && date.Some? && DateHeldByOther(old(rows), date.value, id) ==>
        r == IntegrityError(Unique)
      ensures r.IntegrityError? ==> unchanged(this)
      ensures id in old(rows) && date.Some? && !DateHeldByOther(old(rows), date.value, id) ==>
        && r == Done(1)
        && lastId == old(lastId)
        && clock == old(clock) + 1
        && rows == old(rows)[id := Bill(id, date.value, amounts, old(rows)[id].createdAt, clock)]
    {
      if id !in rows {
        return Done(0);
      }
      if date.None? {
        return IntegrityError(NotNull);
      }
      if exists k | k in rows && k != id :: rows[k].date == date.value {
        return IntegrityError(Unique);
      }
      clock := clock + 1;
      rows := rows[id := Bill(id, date.value, amounts, rows[id].createdAt, clock)];
      r := Done(1);
    }

    /** `DELETE FROM bills WHERE id = ?` and `commit()`: removes row `id`
        if there is one. The AUTOINCREMENT counter keeps its value, so the
        id is never handed out again. */
    method Delete(id: nat)
      requires Valid()
      modifies this
      ensures Valid()
      ensures rows == old(rows) - {id}
      ensures lastId == old(lastId) && clock == old(clock)
    {
      rows := rows - {id};
    }
  }
}
