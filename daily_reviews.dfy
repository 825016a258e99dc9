/**
 * The `ankiDailyReviews` table as a value, and the reconciliation that
 * `syncAnkiDailyReviews` performs on it, pair by pair: look up the first
 * record with the pair's date; update its count if it differs; append a
 * new record if there is none.
 *
 * Records are kept in primary-key order. Nothing declares the `date`
 * index unique, so several records may share a date; a lookup by date
 * yields the one with the smallest key, which is the first in the sequence.
 */
module DailyReviews {
  import opened Wrappers

  /** A creation time; the clock that produces it is outside the model. */
  type Timestamp = int

  /** A row of `ankiDailyReviews`; `id` is its auto-incremented primary key. */
  datatype Review = Review(id: nat, date: string, reviewedCards: int, createdAt: Timestamp)

  /** One `[date, reviewedCards]` pair of the AnkiConnect reply. */
  type DayCount = (string, int)

  /** The table's records in key order and the next key its generator hands out. */
  datatype Snapshot = Snapshot(records: seq<Review>, nextId: nat)

  /** A write the sync issues to the table: `add` of a new row, or `update` by primary key. */
  datatype Write =
    | Add(date: string, reviewedCards: int, createdAt: Timestamp)
    | Update(id: nat, reviewedCards: int)

  predicate IdsAscending(rs: seq<Review>) {
    forall i, j :: 0 <= i < j < |rs| ==> rs[i].id < rs[j].id
  }

  /** Keys are unique, in order, and below the generator's next key. */
  predicate WellFormed(t: Snapshot) {
    IdsAscending(t.records) &&
    forall i :: 0 <= i < |t.records| ==> t.records[i].id < t.nextId
  }

  /** No earlier record carries the date of record `i`. */
  predicate IsFirst(rs: seq<Review>, i: nat)
    requires i < |rs|
  {
    forall j :: 0 <= j < i ==> rs[j].date != rs[i].date
  }

  /** The parts of a record the sync never writes. */
  predicate SameKey(a: Review, b: Review) {
    a.id == b.id && a.date == b.date && a.createdAt == b.createdAt
  }

  /** `after` keeps every record of `before`, at the same place and with the same key, date and creation time. */
  predicate Extends(before: seq<Review>, after: seq<Review>) {
    |before| <= |after| &&
    forall i :: 0 <= i < |before| ==> SameKey(after[i], before[i])
  }

  /** The reply's dates are pairwise distinct. */
  predicate DistinctDates(pairs: seq<DayCount>) {
    forall i, j :: 0 <= i < j < |pairs| ==> pairs[i].0 != pairs[j].0
  }

  /** `where('date').equals(date).first()`: the position of the first record with `date`. */
  function FindFirst(rs: seq<Review>, date: string): (r: Option<nat>)
    ensures r.Some? ==> r.value < |rs| && rs[r.value].date == date && IsFirst(rs, r.value)
    ensures r.None? ==> forall i :: 0 <= i < |rs| ==> rs[i].date != date
  {
    if |rs| == 0 then None
    else if rs[0].date == date then Some(0)
    else
      match FindFirst(rs[1..], date)
      case None => None
      case Some(i) => Some(i + 1)
  }

  /** `update(id, {reviewedCards})`: the record with key `id` gets the new count. */
  function UpdateById(rs: seq<Review>, id: nat, count: int): seq<Review> {
    seq(|rs|, i requires 0 <= i < |rs| =>
      if rs[i].id == id then rs[i].(reviewedCards := count) else rs[i])
  }

  /** The table after one write; `add` takes the generator's next key. */
  function ApplyWrite(t: Snapshot, w: Write): Snapshot {
    match w
    case Add(date, count, createdAt) =>
      Snapshot(t.records + [Review(t.nextId, date, count, createdAt)], t.nextId + 1)
    case Update(id, count) =>
      Snapshot(UpdateById(t.records, id, count), t.nextId)
  }

  /** The write the loop body issues for one pair, if any. */
  function Decide(rs: seq<Review>, date: string, count: int, now: Timestamp): Option<Write> {
    match FindFirst(rs, date)
    case Some(i) => if rs[i].reviewedCards != count then Some(Update(rs[i].id, count)) else None
    case None => Some(Add(date, count, now))
  }

  /** One iteration of the loop: the table after processing `(date, count)`. */
  function Upsert(t: Snapshot, date: string, count: int, now: Timestamp): Snapshot {
    match Decide(t.records, date, count, now)
    case None => t
    case Some(w) => ApplyWrite(t, w)
  }

  /** The whole loop: every pair in order; the `k`-th pair reads the clock as `clock(k)`. */
  function ApplyPairs(t: Snapshot, pairs: seq<DayCount>, clock: nat -> Timestamp): Snapshot
    decreases |pairs|
  {
    if |pairs| == 0 then t
    else
      var n := |pairs| - 1;
      Upsert(ApplyPairs(t, pairs[..n], clock), pairs[n].0, pairs[n].1, clock(n))
  }

  /** The writes the loop issues, in order. */
  function Writes(t: Snapshot, pairs: seq<DayCount>, clock: nat -> Timestamp): seq<Write>
    decreases |pairs|
  {
    if |pairs| == 0 then []
    else
      var n := |pairs| - 1;
      var w := Decide(ApplyPairs(t, pairs[..n], clock).records, pairs[n].0, pairs[n].1, clock(n));
      Writes(t, pairs[..n], clock) + (if w.Some? then [w.value] else [])
  }

  /** Replays a list of writes against the table. */
  function ApplyWrites(t: Snapshot, ws: seq<Write>): Snapshot
    decreases |ws|
  {
    if |ws| == 0 then t else ApplyWrite(ApplyWrites(t, ws[..|ws| - 1]), ws[|ws| - 1])
  }

  /** The count of the last pair carrying `date`, if any pair does. */
  function LastCount(pairs: seq<DayCount>, date: string): (r: Option<int>)
    ensures r.Some? ==>
      exists k :: 0 <= k < |pairs| && pairs[k] == (date, r.value) &&
        forall j :: k < j < |pairs| ==> pairs[j].0 != date
    ensures r.None? ==> forall k :: 0 <= k < |pairs| ==> pairs[k].0 != date
    decreases |pairs|
  {
    if |pairs| == 0 then None
    else if pairs[|pairs| - 1].0 == date then Some(pairs[|pairs| - 1].1)
    else LastCount(pairs[..|pairs| - 1], date)
  }

  /** The loop's state and write list after pair `i`, in terms of those before it. */
  lemma ApplyPairsStep(t: Snapshot, pairs: seq<DayCount>, clock: nat -> Timestamp, i: nat)
    requires i < |pairs|
    ensures var before := ApplyPairs(t, pairs[..i], clock);
      var w := Decide(before.records, pairs[i].0, pairs[i].1, clock(i));
      ApplyPairs(t, pairs[..i + 1], clock) == Upsert(before, pairs[i].0, pairs[i].1, clock(i)) &&
      Writes(t, pairs[..i + 1], clock) == Writes(t, pairs[..i], clock) + (if w.Some? then [w.value] else [])
  {
    assert pairs[..i + 1][..i] == pairs[..i];
  }

  // ---------------------------------------------------------------------
  // Lookup

  /** A record with no earlier record of its date is what the lookup finds. */
  lemma FirstIsFound(rs: seq<Review>, date: string, i: nat)
    requires i < |rs| && rs[i].date == date && IsFirst(rs, i)
    ensures FindFirst(rs, date) == Some(i)
  {
  }

  /** A lookup that succeeds keeps its answer while the table only grows. */
  lemma FindFirstStable(before: seq<Review>, after: seq<Review>, date: string)
    requires Extends(before, after) && FindFirst(before, date).Some?
    ensures FindFirst(after, date) == FindFirst(before, date)
  {
  }

  /** Whether a record is the first of its date does not change while the table only grows. */
  lemma IsFirstStable(before: seq<Review>, after: seq<Review>, i: nat)
    requires Extends(before, after) && i < |before|
    ensures IsFirst(after, i) == IsFirst(before, i)
  {
  }

  /** Growing twice is growing. */
  lemma ExtendsTransitive(a: seq<Review>, b: seq<Review>, c: seq<Review>)
    requires Extends(a, b) && Extends(b, c)
    ensures Extends(a, c)
  {
  }

  // ---------------------------------------------------------------------
  // Update by key

  /** With unique keys, updating the key of record `i` rewrites the count of record `i` and of no other. */
  lemma UpdateByKeyIsSingleIndex(rs: seq<Review>, i: nat, count: int)
    requires IdsAscending(rs) && i < |rs|
    ensures UpdateById(rs, rs[i].id, count) == rs[i := rs[i].(reviewedCards := count)]
  {
    assert forall j :: 0 <= j < |rs| && j != i ==> rs[j].id != rs[i].id;
  }

  /** Updating a key no record has leaves the table as it is. */
  lemma UpdateByMissingKey(rs: seq<Review>, id: nat, count: int)
    requires forall j :: 0 <= j < |rs| ==> rs[j].id != id
    ensures UpdateById(rs, id, count) == rs
  {
  }

  // ---------------------------------------------------------------------
  // One pair

  /** A date with no record: exactly one record is appended, carrying the date, the count and the clock reading. */
  lemma UpsertAbsent(t: Snapshot, date: string, count: int, now: Timestamp)
    requires FindFirst(t.records, date).None?
    ensures Upsert(t, date, count, now) ==
      Snapshot(t.records + [Review(t.nextId, date, count, now)], t.nextId + 1)
  {
  }

  /** The first record of the date already has the count: nothing changes. */
  lemma UpsertUnchanged(t: Snapshot, date: string, count: int, now: Timestamp)
    requires FindFirst(t.records, date).Some?
    requires t.records[FindFirst(t.records, date).value].reviewedCards == count
    ensures Upsert(t, date, count, now) == t
  {
  }

  /** The first record of the date has another count: only its count changes. */
  lemma UpsertChanged(t: Snapshot, date: string, count: int, now: Timestamp)
    requires WellFormed(t)
    requires FindFirst(t.records, date).Some?
    requires t.records[FindFirst(t.records, date).value].reviewedCards != count
    ensures var i := FindFirst(t.records, date).value;
      Upsert(t, date, count, now) ==
        Snapshot(t.records[i := t.records[i].(reviewedCards := count)], t.nextId)
  {
  }

  /**
   * What one pair may change: keys stay unique, old records keep their
   * place, key, date and creation time, at most one record is appended
   * (with the pair's date), and every record that is not the first of
   * the pair's date is left exactly as it was.
   */
  lemma UpsertFrame(t: Snapshot, date: string, count: int, now: Timestamp)
    requires WellFormed(t)
    ensures var after := Upsert(t, date, count, now);
      WellFormed(after) &&
      Extends(t.records, after.records) &&
      |after.records| <= |t.records| + 1 &&
      t.nextId <= after.nextId &&
      (forall i :: |t.records| <= i < |after.records| ==> after.records[i].date == date) &&
      (forall i :: 0 <= i < |t.records| && (t.records[i].date != date || !IsFirst(t.records, i)) ==>
        after.records[i] == t.records[i])
  {
  }

  /** After one pair, the first record of its date holds its count. */
  lemma UpsertStores(t: Snapshot, date: string, count: int, now: Timestamp)
    requires WellFormed(t)
    ensures var after := Upsert(t, date, count, now);
      FindFirst(after.records, date).Some? &&
      after.records[FindFirst(after.records, date).value].reviewedCards == count
  {
    var after := Upsert(t, date, count, now);
    UpsertFrame(t, date, count, now);
    match FindFirst(t.records, date)
    case None =>
      UpsertAbsent(t, date, count, now);
      FirstIsFound(after.records, date, |t.records|);
    case Some(i) =>
      FindFirstStable(t.records, after.records, date);
      if t.records[i].reviewedCards == count {
        UpsertUnchanged(t, date, count, now);
      } else {
        UpsertChanged(t, date, count, now);
      }
  }

  // ---------------------------------------------------------------------
  // The whole reply

  lemma {:induction false} ApplyPairsWellFormed(t: Snapshot, pairs: seq<DayCount>, clock: nat -> Timestamp)
    requires WellFormed(t)
    ensures WellFormed(ApplyPairs(t, pairs, clock))
    decreases |pairs|
  {
    if |pairs| > 0 {
      var n := |pairs| - 1;
      ApplyPairsWellFormed(t, pairs[..n], clock);
      UpsertFrame(ApplyPairs(t, pairs[..n], clock), pairs[n].0, pairs[n].1, clock(n));
    }
  }

  /**
   * The table only grows: no record is removed or moved, no key, date or
   * creation time changes, and every appended record carries a date of
   * the reply.
   */
  lemma {:induction false} TableOnlyGrows(t: Snapshot, pairs: seq<DayCount>, clock: nat -> Timestamp)
    requires WellFormed(t)
    ensures var after := ApplyPairs(t, pairs, clock);
      Extends(t.records, after.records) &&
      t.nextId <= after.nextId &&
      forall i :: |t.records| <= i < |after.records| ==> LastCount(pairs, after.records[i].date).Some?
    decreases |pairs|
  {
    if |pairs| > 0 {
      var n := |pairs| - 1;
      var before := ApplyPairs(t, pairs[..n], clock);
      var after := ApplyPairs(t, pairs, clock);
      TableOnlyGrows(t, pairs[..n], clock);
      ApplyPairsWellFormed(t, pairs[..n], clock);
      UpsertFrame(before, pairs[n].0, pairs[n].1, clock(n));
      ExtendsTransitive(t.records, before.records, after.records);
      forall i | |t.records| <= i < |after.records|
        ensures LastCount(pairs, after.records[i].date).Some?
      {
        if i < |before.records| {
          assert after.records[i].date == before.records[i].date;
        }
      }
    }
  }

  /**
   * A record is never touched when its date is absent from the reply, or
   * when an earlier record shares its date.
   */
  lemma {:induction false} UntouchedRecords(t: Snapshot, pairs: seq<DayCount>, clock: nat -> Timestamp)
    requires WellFormed(t)
    ensures var after := ApplyPairs(t, pairs, clock);
      |t.records| <= |after.records| &&
      forall i :: 0 <= i < |t.records| &&
        (LastCount(pairs, t.records[i].date).None? || !IsFirst(t.records, i))
        ==> after.records[i] == t.records[i]
    decreases |pairs|
  {
    if |pairs| > 0 {
      var n := |pairs| - 1;
      var before := ApplyPairs(t, pairs[..n], clock);
      var after := ApplyPairs(t, pairs, clock);
      UntouchedRecords(t, pairs[..n], clock);
      TableOnlyGrows(t, pairs[..n], clock);
      ApplyPairsWellFormed(t, pairs[..n], clock);
      UpsertFrame(before, pairs[n].0, pairs[n].1, clock(n));
      forall i | 0 <= i < |t.records| &&
        (LastCount(pairs, t.records[i].date).None? || !IsFirst(t.records, i))
        ensures after.records[i] == t.records[i]
      {
        IsFirstStable(t.records, before.records, i);
      }
    }
  }

  /** A record one pair appends is the first of its date, and its date had no record in `t`. */
  lemma UpsertAppendsFirst(t: seq<Review>, before: Snapshot, date: string, count: int, now: Timestamp)
    requires WellFormed(before) && Extends(t, before.records)
    requires |Upsert(before, date, count, now).records| > |before.records|
    ensures var after := Upsert(before, date, count, now);
      IsFirst(after.records, |before.records|) && after.records[|before.records|].date == date &&
      FindFirst(t, date).None?
  {
    UpsertAbsent(before, date, count, now);
    if FindFirst(t, date).Some? {
      FindFirstStable(t, before.records, date);
    }
  }

  /**
   * The loop never creates a second record for a date: every appended
   * record is the first of its date, and its date had no record before.
   */
  lemma {:induction false} AppendedRecordsAreFirst(t: Snapshot, pairs: seq<DayCount>, clock: nat -> Timestamp)
    requires WellFormed(t)
    ensures var after := ApplyPairs(t, pairs, clock);
      forall i :: |t.records| <= i < |after.records| ==>
        IsFirst(after.records, i) && FindFirst(t.records, after.records[i].date).None?
    decreases |pairs|
  {
    if |pairs| > 0 {
      var n := |pairs| - 1;
      var before := ApplyPairs(t, pairs[..n], clock);
      var after := Upsert(before, pairs[n].0, pairs[n].1, clock(n));
      assert after == ApplyPairs(t, pairs, clock);
      AppendedRecordsAreFirst(t, pairs[..n], clock);
      TableOnlyGrows(t, pairs[..n], clock);
      ApplyPairsWellFormed(t, pairs[..n], clock);
      UpsertFrame(before, pairs[n].0, pairs[n].1, clock(n));
      if |after.records| > |before.records| {
        UpsertAppendsFirst(t.records, before, pairs[n].0, pairs[n].1, clock(n));
      }
      forall i | |t.records| <= i < |before.records|
        ensures IsFirst(after.records, i) && FindFirst(t.records, after.records[i].date).None?
      {
        IsFirstStable(before.records, after.records, i);
      }
    }
  }

  /** Last write wins: the first record of each reply date holds the count of the last pair with that date. */
  lemma {:induction false} LastWriteWins(t: Snapshot, pairs: seq<DayCount>, clock: nat -> Timestamp, date: string)
    requires WellFormed(t)
    requires LastCount(pairs, date).Some?
    ensures var after := ApplyPairs(t, pairs, clock);
      FindFirst(after.records, date).Some? &&
      after.records[FindFirst(after.records, date).value].reviewedCards == LastCount(pairs, date).value
    decreases |pairs|
  {
    var n := |pairs| - 1;
    var before := ApplyPairs(t, pairs[..n], clock);
    var after := ApplyPairs(t, pairs, clock);
    ApplyPairsWellFormed(t, pairs[..n], clock);
    if pairs[n].0 == date {
      UpsertStores(before, pairs[n].0, pairs[n].1, clock(n));
    } else {
      LastWriteWins(t, pairs[..n], clock, date);
      UpsertFrame(before, pairs[n].0, pairs[n].1, clock(n));
      FindFirstStable(before.records, after.records, date);
    }
  }

  /** When every reply date already has a record, the loop appends nothing. */
  lemma {:induction false} NoAdditionsWhenPresent(t: Snapshot, pairs: seq<DayCount>, clock: nat -> Timestamp)
    requires WellFormed(t)
    requires forall k :: 0 <= k < |pairs| ==> FindFirst(t.records, pairs[k].0).Some?
    ensures var after := ApplyPairs(t, pairs, clock);
      |after.records| == |t.records| && after.nextId == t.nextId
    decreases |pairs|
  {
    if |pairs| > 0 {
      var n := |pairs| - 1;
      var before := ApplyPairs(t, pairs[..n], clock);
      assert forall k :: 0 <= k < n ==> pairs[..n][k] == pairs[k];
      NoAdditionsWhenPresent(t, pairs[..n], clock);
      TableOnlyGrows(t, pairs[..n], clock);
      FindFirstStable(t.records, before.records, pairs[n].0);
    }
  }

  /** Rerunning the loop on its own result with the same reply leaves the table as it is. */
  lemma RerunIsIdentity(t: Snapshot, pairs: seq<DayCount>, clock1: nat -> Timestamp, clock2: nat -> Timestamp)
    requires WellFormed(t)
    ensures var once := ApplyPairs(t, pairs, clock1);
      ApplyPairs(once, pairs, clock2) == once
  {
    var once := ApplyPairs(t, pairs, clock1);
    var twice := ApplyPairs(once, pairs, clock2);
    ApplyPairsWellFormed(t, pairs, clock1);
    forall k | 0 <= k < |pairs| ensures FindFirst(once.records, pairs[k].0).Some? {
      LastWriteWins(t, pairs, clock1, pairs[k].0);
    }
    NoAdditionsWhenPresent(once, pairs, clock2);
    TableOnlyGrows(once, pairs, clock2);
    UntouchedRecords(once, pairs, clock2);
    forall i | 0 <= i < |once.records| ensures twice.records[i] == once.records[i] {
      var date := once.records[i].date;
      if LastCount(pairs, date).Some? && IsFirst(once.records, i) {
        FirstIsFound(once.records, date, i);
        LastWriteWins(t, pairs, clock1, date);
        FindFirstStable(once.records, twice.records, date);
        LastWriteWins(once, pairs, clock2, date);
      }
    }
    assert twice.records == once.records;
  }

  /** With distinct dates, the last pair of a date is its only pair. */
  lemma LastCountOfDistinct(pairs: seq<DayCount>, k: nat)
    requires DistinctDates(pairs) && k < |pairs|
    ensures LastCount(pairs, pairs[k].0) == Some(pairs[k].1)
  {
  }

  lemma {:induction false} RerunPrefixWritesNothing(t: Snapshot, pairs: seq<DayCount>,
                                                    clock1: nat -> Timestamp, clock2: nat -> Timestamp, m: nat)
    requires WellFormed(t) && DistinctDates(pairs) && m <= |pairs|
    ensures var once := ApplyPairs(t, pairs, clock1);
      ApplyPairs(once, pairs[..m], clock2) == once && Writes(once, pairs[..m], clock2) == []
  {
    var once := ApplyPairs(t, pairs, clock1);
    if m > 0 {
      var prefix := pairs[..m];
      assert prefix[..m - 1] == pairs[..m - 1];
      RerunPrefixWritesNothing(t, pairs, clock1, clock2, m - 1);
      var (date, count) := pairs[m - 1];
      LastCountOfDistinct(pairs, m - 1);
      ApplyPairsWellFormed(t, pairs, clock1);
      LastWriteWins(t, pairs, clock1, date);
      assert Decide(once.records, date, count, clock2(m - 1)) == None;
    }
  }

  /** With distinct dates, rerunning the loop on its own result issues no add and no update. */
  lemma RerunWritesNothing(t: Snapshot, pairs: seq<DayCount>, clock1: nat -> Timestamp, clock2: nat -> Timestamp)
    requires WellFormed(t) && DistinctDates(pairs)
    ensures Writes(ApplyPairs(t, pairs, clock1), pairs, clock2) == []
  {
    RerunPrefixWritesNothing(t, pairs, clock1, clock2, |pairs|);
    assert pairs[..|pairs|] == pairs;
  }

  /** A reply that repeats a date with two counts makes the rerun update that record twice. */
  lemma RerunRewritesRepeatedDate(clock: nat -> Timestamp)
    ensures var pairs := [("2024-05-01", 3), ("2024-05-01", 4)];
      var once := ApplyPairs(Snapshot([], 1), pairs, clock);
      Writes(once, pairs, clock) == [Update(1, 3), Update(1, 4)]
  {
  }

  /** The loop's effect on the table is exactly the replay of the writes it issues. */
  lemma {:induction false} WritesReplay(t: Snapshot, pairs: seq<DayCount>, clock: nat -> Timestamp)
    ensures ApplyWrites(t, Writes(t, pairs, clock)) == ApplyPairs(t, pairs, clock)
    decreases |pairs|
  {
    if |pairs| > 0 {
      var n := |pairs| - 1;
      var ws := Writes(t, pairs[..n], clock);
      WritesReplay(t, pairs[..n], clock);
      var w := Decide(ApplyPairs(t, pairs[..n], clock).records, pairs[n].0, pairs[n].1, clock(n));
      if w.Some? {
        assert (ws + [w.value])[..|ws|] == ws;
      } else {
        assert ws + [] == ws;
      }
    }
  }
}
