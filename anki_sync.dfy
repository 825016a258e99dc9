/**
 * `syncAnkiDailyReviews` and `getAllAnkiDailyReviews`: fetch the review
 * counts per day from AnkiConnect and reconcile them into the table.
 */
module AnkiSync {
  import opened Wrappers
  import opened DailyReviews
  import opened AnkiConnect
  import opened ReviewStore

  /**
   * On a failed call the error propagates and the table is untouched; on
   * success every pair of the reply is upserted, in order, with `clock(k)`
   * as the creation time of a record added for the `k`-th pair. The
   * writes issued are exactly those `Writes` lists; a failed call issues none.
   */
  method SyncAnkiDailyReviews(table: ReviewTable, settings: map<string, Settings>,
                              remote: Request -> HttpOutcome, clock: nat -> Timestamp)
    returns (outcome: Outcome<CallError>)
    requires table.Valid()
    modifies table
    ensures table.Valid()
    ensures AnkiSettingsId !in settings || !IsConfigured(GetAnkiConnectUrl(settings)) ==>
      outcome == Fail(UrlNotConfigured) && table.Value() == old(table.Value()) && table.log == old(table.log)
    ensures match CallAnkiConnect(GetAnkiConnectUrl(settings), remote, GetNumCardsReviewedByDay)
      case Failure(e) =>
        outcome == Fail(e) && table.Value() == old(table.Value()) && table.log == old(table.log)
      case Success(reply) =>
        outcome == Pass && table.Value() == ApplyPairs(old(table.Value()), reply.result, clock) &&
        table.log == old(table.log) + Writes(old(table.Value()), reply.result, clock)
  {
    var response := CallAnkiConnect(GetAnkiConnectUrl(settings), remote, GetNumCardsReviewedByDay);
    if response.Failure? {
      return Fail(response.error);
    }
    var dailyReviews := response.value.result;
    ghost var start := table.Value();
    ghost var startLog := table.log;
    for i := 0 to |dailyReviews|
      invariant table.Valid()
      invariant table.Value() == ApplyPairs(start, dailyReviews[..i], clock)
      invariant table.log == startLog + Writes(start, dailyReviews[..i], clock)
    {
      ApplyPairsStep(start, dailyReviews, clock, i);
      UpsertReview(table, dailyReviews[i].0, dailyReviews[i].1, clock(i));
    }
    assert dailyReviews[..|dailyReviews|] == dailyReviews;
    return Pass;
  }

  /**
   * The loop body for one `(dateString, reviewedCards)` pair: update the
   * first record of the date if its count differs, add a record if the
   * date has none. The table moves by `Upsert` and the log grows by the
   * write `Decide` calls for, if any.
   */
  method UpsertReview(table: ReviewTable, dateString: string, reviewedCards: int, now: Timestamp)
    requires table.Valid()
    modifies table
    ensures table.Valid()
    ensures table.Value() == Upsert(old(table.Value()), dateString, reviewedCards, now)
    ensures var w := Decide(old(table.records), dateString, reviewedCards, now);
      table.log == old(table.log) + (if w.Some? then [w.value] else [])
  {
    var existingReview := table.First(dateString);
    if existingReview.Some? {
      if existingReview.value.reviewedCards != reviewedCards {
        table.Update(existingReview.value.id, reviewedCards);
      }
    } else {
      var _ := table.Add(dateString, reviewedCards, now);
    }
  }

  /** `toArray()`: every record, in key order. */
  method GetAllAnkiDailyReviews(table: ReviewTable) returns (reviews: seq<Review>)
    requires table.Valid()
    ensures reviews == table.records
    ensures IdsAscending(reviews)
  {
    reviews := table.records;
  }
}
