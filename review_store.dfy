/**
 * The `ankiDailyReviews` table as the sync sees it: records in key order,
 * an auto-increment key generator, and the three operations the sync
 * calls — first match by date, update by key, add. The ghost `log`
 * records every write issued to the table, in order.
 */
module ReviewStore {
  import opened Wrappers
  import opened DailyReviews

  class ReviewTable {
    var records: seq<Review>
    var nextId: nat
    ghost var log: seq<Write>

    /** The table's contents as a value. */
    function Value(): Snapshot
      reads this
    {
      Snapshot(records, nextId)
    }

    ghost predicate Valid()
      reads this
    {
      WellFormed(Value())
    }

    /** An empty table whose generator starts at key 1. */
    constructor ()
      ensures Valid() && Value() == Snapshot([], 1) && log == []
    {
      records := [];
      nextId := 1;
      log := [];
    }

    /** `where('date').equals(date).first()`. */
    method First(date: string) returns (r: Option<Review>)
      ensures r.None? <==> forall i :: 0 <= i < |records| ==> records[i].date != date
      ensures r.Some? ==>
        FindFirst(records, date).Some? && r.value == records[FindFirst(records, date).value]
    {
      match FindFirst(records, date)
      case None => r := None;
      case Some(i) => r := Some(records[i]);
    }

    /** `update(id, {reviewedCards: count})`. */
    method Update(id: nat, count: int)
      requires Valid()
      modifies this
      ensures Valid() && Value() == ApplyWrite(old(Value()), Write.Update(id, count))
      ensures log == old(log) + [Write.Update(id, count)]
    {
      records := UpdateById(records, id, count);
      log := log + [Write.Update(id, count)];
    }

    /** `add({date, reviewedCards, createdAt})`: returns the key it assigned. */
    method Add(date: string, count: int, createdAt: Timestamp) returns (id: nat)
      requires Valid()
      modifies this
      ensures Valid() && id == old(nextId)
      ensures Value() == ApplyWrite(old(Value()), Write.Add(date, count, createdAt))
      ensures log == old(log) + [Write.Add(date, count, createdAt)]
    {
      id := nextId;
      records := records + [Review(id, date, count, createdAt)];
      nextId := nextId + 1;
      log := log + [Write.Add(date, count, createdAt)];
    }
  }
}
