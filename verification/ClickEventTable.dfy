/**
 The click_events table as InsertBatch writes it (src/storage/sql/sql_click_event_repository.cpp):
 row by row, ignoring a row whose event id is already present, and possibly stopping midway when the
 database raises an error.  Rows written before the error stay.
 */
module ClickEventTable {
  import opened ClickEvents

  predicate HasId(rows: seq<ClickEvent>, id: string) {
    exists i :: 0 <= i < |rows| && rows[i].eventId == id
  }

  function InsertOrIgnore(rows: seq<ClickEvent>, e: ClickEvent): seq<ClickEvent> {
    if HasId(rows, e.eventId) then rows else rows + [e]
  }

  function InsertAll(rows: seq<ClickEvent>, events: seq<ClickEvent>): seq<ClickEvent> {
    if events == [] then rows
    else InsertOrIgnore(InsertAll(rows, events[..|events| - 1]), events[|events| - 1])
  }

  function Min(a: nat, b: nat): nat {
    if a < b then a else b
  }

  /** The primary key: no two rows share an event id. */
  ghost predicate KeyUnique(rows: seq<ClickEvent>) {
    forall i, j :: 0 <= i < j < |rows| ==> rows[i].eventId != rows[j].eventId
  }

  /**
   What the database does with a batch: how many row inserts it stores before an error, and, when that
   is all of them, whether the last one is also acknowledged.
   */
  datatype Attempt = Attempt(reach: nat, acked: bool)

  predicate Succeeds(a: Attempt, size: nat) {
    size == 0 || (a.reach >= size && a.acked)
  }

  /** The furthest any of the first `n` attempts got into a batch of `size` rows. */
  function Furthest(tries: nat -> Attempt, n: nat, size: nat): (r: nat)
    ensures r <= size
  {
    if n == 0 then 0 else
      var before := Furthest(tries, n - 1, size);
      var last := Min(tries(n - 1).reach, size);
      if before < last then last else before
  }

  class Table {
    var rows: seq<ClickEvent>

    constructor (rows: seq<ClickEvent>)
      ensures this.rows == rows
    {
      this.rows := rows;
    }

    /** An error may also come after the last row was stored; the batch then counts as failed. */
    method InsertBatch(events: seq<ClickEvent>, a: Attempt) returns (ok: bool)
      modifies this
      ensures ok == Succeeds(a, |events|)
      ensures rows == InsertAll(old(rows), events[..Min(a.reach, |events|)])
    {
      for i := 0 to |events|
        invariant i <= a.reach && (i == |events| > 0 ==> a.acked)
        invariant rows == InsertAll(old(rows), events[..i])
      {
        if i == a.reach {
          return false;
        }
        assert events[..i + 1][..i] == events[..i];
        if !HasIdIn(events[i].eventId) {
          rows := rows + [events[i]];
        }
        if i + 1 == |events| && !a.acked {
          return false;
        }
      }
      return true;
    }

    function HasIdIn(id: string): bool
      reads this
    {
      HasId(rows, id)
    }

    /** `tries(i)` is what the database does with attempt `i`; the source sleeps between attempts. */
    method PersistWithRetry(batch: seq<ClickEvent>, maxRetries: nat, tries: nat -> Attempt)
      returns (ok: bool, attempts: nat)
      modifies this
      ensures 1 <= attempts <= maxRetries + 1
      ensures ok <==> Succeeds(tries(attempts - 1), |batch|)
      ensures forall i :: 0 <= i < attempts - 1 ==> !Succeeds(tries(i), |batch|)
      ensures !ok ==> attempts == maxRetries + 1
      ensures rows == InsertAll(old(rows), batch[..Furthest(tries, attempts, |batch|)])
      ensures ok ==> rows == InsertAll(old(rows), batch)
    {
      ghost var start := rows;
      attempts := 0;
      ok := false;
      while attempts <= maxRetries
        invariant attempts <= maxRetries + 1
        invariant !ok && forall i :: 0 <= i < attempts ==> !Succeeds(tries(i), |batch|)
        invariant rows == InsertAll(start, batch[..Furthest(tries, attempts, |batch|)])
        decreases maxRetries + 1 - attempts
      {
        ok := InsertBatch(batch, tries(attempts));
        RetryStep(start, batch, tries, attempts);
        attempts := attempts + 1;
        if ok {
          return;
        }
      }
    }
  }

  /** One more attempt moves the table to the furthest point reached so far. */
  lemma {:induction false} RetryStep(start: seq<ClickEvent>, batch: seq<ClickEvent>, tries: nat -> Attempt, n: nat)
    ensures InsertAll(InsertAll(start, batch[..Furthest(tries, n, |batch|)]), batch[..Min(tries(n).reach, |batch|)])
         == InsertAll(start, batch[..Furthest(tries, n + 1, |batch|)])
    ensures Succeeds(tries(n), |batch|) ==> batch[..Furthest(tries, n + 1, |batch|)] == batch
  {
    InsertAgain(start, batch, Furthest(tries, n, |batch|), Min(tries(n).reach, |batch|));
  }

  // ----- what insert-or-ignore means -----

  lemma {:induction false} InsertAllConcat(rows: seq<ClickEvent>, a: seq<ClickEvent>, b: seq<ClickEvent>)
    ensures InsertAll(rows, a + b) == InsertAll(InsertAll(rows, a), b)
  {
    if b == [] {
      assert a + b == a;
    } else {
      var n := |b| - 1;
      InsertAllConcat(rows, a, b[..n]);
      assert (a + b)[..|a + b| - 1] == a + b[..n];
    }
  }

  /** Older rows keep their place and content; every id of the events is present afterwards. */
  lemma {:induction false} InsertAllGrows(rows: seq<ClickEvent>, events: seq<ClickEvent>)
    ensures rows <= InsertAll(rows, events)
    ensures forall k :: 0 <= k < |events| ==> HasId(InsertAll(rows, events), events[k].eventId)
    ensures KeyUnique(rows) ==> KeyUnique(InsertAll(rows, events))
  {
    if events != [] {
      var n := |events| - 1;
      var before := InsertAll(rows, events[..n]);
      var after := InsertOrIgnore(before, events[n]);
      InsertAllGrows(rows, events[..n]);
      forall k | 0 <= k < |events|
        ensures HasId(after, events[k].eventId)
      {
        if k < n {
          assert HasId(before, events[..n][k].eventId);
          var i :| 0 <= i < |before| && before[i].eventId == events[k].eventId;
          assert after[i].eventId == events[k].eventId;
        } else if !HasId(before, events[n].eventId) {
          assert after[|before|] == events[n];
        }
      }
    }
  }

  lemma {:induction false} InsertPresent(rows: seq<ClickEvent>, events: seq<ClickEvent>)
    requires forall k :: 0 <= k < |events| ==> HasId(rows, events[k].eventId)
    ensures InsertAll(rows, events) == rows
  {
    if events != [] {
      InsertPresent(rows, events[..|events| - 1]);
    }
  }

  /** Trying again from the start leaves the rows of whichever attempt got further. */
  lemma {:induction false} InsertAgain(rows: seq<ClickEvent>, batch: seq<ClickEvent>, i: nat, j: nat)
    requires i <= |batch| && j <= |batch|
    ensures InsertAll(InsertAll(rows, batch[..i]), batch[..j]) == InsertAll(rows, batch[..if i < j then j else i])
  {
    var once := InsertAll(rows, batch[..i]);
    InsertAllGrows(rows, batch[..i]);
    if i < j {
      InsertPresent(once, batch[..i]);
      assert batch[..j] == batch[..i] + batch[i..j];
      InsertAllConcat(once, batch[..i], batch[i..j]);
      InsertAllConcat(rows, batch[..i], batch[i..j]);
    } else {
      forall k | 0 <= k < j
        ensures HasId(once, batch[..j][k].eventId)
      {
        assert HasId(once, batch[..i][k].eventId);
      }
      InsertPresent(once, batch[..j]);
    }
  }

  /** How often an id occurs in the table. */
  function Occurrences(rows: seq<ClickEvent>, id: string): nat {
    if rows == [] then 0 else
      Occurrences(rows[..|rows| - 1], id) + (if rows[|rows| - 1].eventId == id then 1 else 0)
  }

  lemma {:induction false} OccurrencesBound(rows: seq<ClickEvent>, id: string)
    requires KeyUnique(rows)
    ensures Occurrences(rows, id) == if HasId(rows, id) then 1 else 0
  {
    if rows != [] {
      OccurrencesBound(rows[..|rows| - 1], id);
      if rows[|rows| - 1].eventId != id && HasId(rows, id) {
        var i :| 0 <= i < |rows| && rows[i].eventId == id;
        assert rows[..|rows| - 1][i].eventId == id;
      }
    }
  }

  /** Rows past the old ones are events of the batch, each the first of its id and new to the table. */
  lemma {:induction false} NewRowsAreFirsts(rows: seq<ClickEvent>, events: seq<ClickEvent>, r: nat)
    requires |rows| <= r < |InsertAll(rows, events)|
    ensures exists k :: 0 <= k < |events| && InsertAll(rows, events)[r] == events[k]
                        && !HasId(rows, events[k].eventId) && !HasId(events[..k], events[k].eventId)
  {
    InsertAllGrows(rows, events);
    var n := |events| - 1;
    var before := InsertAll(rows, events[..n]);
    InsertAllGrows(rows, events[..n]);
    if r < |before| {
      NewRowsAreFirsts(rows, events[..n], r);
      var k :| 0 <= k < n && before[r] == events[..n][k]
               && !HasId(rows, events[..n][k].eventId) && !HasId(events[..n][..k], events[..n][k].eventId);
      assert events[..n][..k] == events[..k] && events[..n][k] == events[k];
    } else {
      var id := events[n].eventId;
      assert !HasId(before, id);
      assert forall i :: 0 <= i < |rows| ==> rows[i] == before[i];
      assert forall i :: 0 <= i < n ==> HasId(before, events[..n][i].eventId);
    }
  }

  /**
   Retry is exactly-once: whatever the attempts reached, after a success every id of the batch is in
   the table exactly once and every older row is where it was.
   */
  lemma {:induction false} RetryIsExactlyOnce(rows: seq<ClickEvent>, batch: seq<ClickEvent>, k: nat)
    requires KeyUnique(rows) && k < |batch|
    ensures var after := InsertAll(rows, batch);
            && rows <= after && KeyUnique(after)
            && Occurrences(after, batch[k].eventId) == 1
  {
    InsertAllGrows(rows, batch);
    OccurrencesBound(InsertAll(rows, batch), batch[k].eventId);
  }
}
