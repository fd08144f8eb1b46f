/**
 * `ReviewRequestStrategy`: when to ask for a review, as a predicate over the
 * review-request store. Every strategy is an `AnyReviewRequestStrategy`
 * wrapping a closure; the built-in ones are `always`, `never`,
 * `after(days:launches:events:)` and `all(_:)`.
 *
 * A closure reads the store and may consult the clock: `Date()` and the
 * current calendar's count of whole days between two instants are given as
 * a `Clock` value.
 */
module ReviewRequestStrategy {
  import opened Wrappers
  import opened ReviewRequestStore

  /**
   * The current instant and the calendar's day count
   * (`dateComponents([.day], from:to:).day`, which may be absent).
   */
  datatype Clock = Clock(now: Date, dayCount: (Date, Date) -> Option<int>)

  /** `AnyReviewRequestStrategy`: a strategy is the closure it wraps. */
  datatype AnyReviewRequestStrategy = AnyReviewRequestStrategy(checker: (Snapshot, Clock) -> bool) {
    /** `shouldRequestReview(using:)` */
    predicate ShouldRequestReview(store: Snapshot, clock: Clock) {
      checker(store, clock)
    }
  }

  /** `always` */
  function Always(): AnyReviewRequestStrategy {
    AnyReviewRequestStrategy((store, clock) => true)
  }

  /** `never` */
  function Never(): AnyReviewRequestStrategy {
    AnyReviewRequestStrategy((store, clock) => false)
  }

  /** `dayOK`: a positive day threshold is checked only once a prompt has been shown. */
  predicate DayCondition(days: int, store: Snapshot, clock: Clock) {
    if days > 0 && store.lastPromptDate.Some? then
      clock.dayCount(store.lastPromptDate.value, clock.now).GetOr(0) >= days
    else true
  }

  /** `launchOK` */
  predicate LaunchCondition(launches: int, store: Snapshot) {
    launches == 0 || store.launchesSincePrompt >= launches
  }

  /** `eventOK` */
  predicate EventCondition(events: int, store: Snapshot) {
    events == 0 || store.eventsSincePrompt >= events
  }

  /** `after(days:launches:events:)` */
  function After(days: int, launches: int, events: int): AnyReviewRequestStrategy {
    AnyReviewRequestStrategy((store, clock) =>
      DayCondition(days, store, clock) && LaunchCondition(launches, store) && EventCondition(events, store))
  }

  /** `all(_:)`: every strategy of the list agrees (`allSatisfy`). */
  function All(strategies: seq<AnyReviewRequestStrategy>): AnyReviewRequestStrategy {
    AnyReviewRequestStrategy((store, clock) => AllSatisfy(strategies, store, clock))
  }

  /** `allSatisfy`, one strategy at a time. */
  predicate AllSatisfy(strategies: seq<AnyReviewRequestStrategy>, store: Snapshot, clock: Clock) {
    strategies == [] || (strategies[0].ShouldRequestReview(store, clock) && AllSatisfy(strategies[1..], store, clock))
  }

  /** `always` agrees to every request and `never` to none. */
  lemma AlwaysAndNever(store: Snapshot, clock: Clock)
    ensures Always().ShouldRequestReview(store, clock)
    ensures !Never().ShouldRequestReview(store, clock)
  {
  }

  /**
   * `after` holds exactly when: the day threshold is not positive, or no
   * prompt was shown yet, or at least `days` whole days (0 when the calendar
   * gives none) have passed since it; and the launch threshold is 0 or
   * reached; and the event threshold is 0 or reached.
   */
  lemma AfterConditions(days: int, launches: int, events: int, store: Snapshot, clock: Clock)
    ensures After(days, launches, events).ShouldRequestReview(store, clock) <==>
      && (days <= 0 || store.lastPromptDate.None? ||
          clock.dayCount(store.lastPromptDate.value, clock.now).GetOr(0) >= days)
      && (launches == 0 || store.launchesSincePrompt >= launches)
      && (events == 0 || store.eventsSincePrompt >= events)
  {
    var after := After(days, launches, events);
    assert after.checker == (store, clock) =>
      DayCondition(days, store, clock) && LaunchCondition(launches, store) && EventCondition(events, store);
    assert after.ShouldRequestReview(store, clock) <==>
      DayCondition(days, store, clock) && LaunchCondition(launches, store) && EventCondition(events, store);
  }

  /** With every threshold at its default of 0, `after` agrees to every request. */
  lemma AfterDefaultsAlwaysHold(store: Snapshot, clock: Clock)
    ensures After(0, 0, 0).ShouldRequestReview(store, clock)
  {
    AfterConditions(0, 0, 0, store, clock);
  }

  /**
   * `after` is monotone: with the same last prompt, more launches, more
   * events and at least as many elapsed days never turn agreement into
   * refusal.
   */
  lemma AfterMonotone(days: int, launches: int, events: int, s: Snapshot, c: Clock, s': Snapshot, c': Clock)
    requires s'.lastPromptDate == s.lastPromptDate
    requires s'.launchesSincePrompt >= s.launchesSincePrompt && s'.eventsSincePrompt >= s.eventsSincePrompt
    requires s.lastPromptDate.Some? ==>
      c'.dayCount(s.lastPromptDate.value, c'.now).GetOr(0) >= c.dayCount(s.lastPromptDate.value, c.now).GetOr(0)
    ensures After(days, launches, events).ShouldRequestReview(s, c) ==> After(days, launches, events).ShouldRequestReview(s', c')
  {
    AfterConditions(days, launches, events, s, c);
    AfterConditions(days, launches, events, s', c');
  }

  /** `all` agrees exactly when every one of its strategies does. */
  lemma {:induction false} AllIffEvery(strategies: seq<AnyReviewRequestStrategy>, store: Snapshot, clock: Clock)
    ensures All(strategies).ShouldRequestReview(store, clock) <==>
      forall i | 0 <= i < |strategies| :: strategies[i].ShouldRequestReview(store, clock)
  {
    AllSatisfyIffEvery(strategies, store, clock);
  }

  lemma {:induction false} AllSatisfyIffEvery(strategies: seq<AnyReviewRequestStrategy>, store: Snapshot, clock: Clock)
    ensures AllSatisfy(strategies, store, clock) <==>
      forall i | 0 <= i < |strategies| :: strategies[i].ShouldRequestReview(store, clock)
  {
    if strategies != [] {
      AllSatisfyIffEvery(strategies[1..], store, clock);
      assert forall i | 1 <= i < |strategies| :: strategies[i] == strategies[1..][i - 1];
    }
  }

  /** `all([])` agrees to every request; `all([s])` behaves as `s`. */
  lemma AllEmptyAndSingle(s: AnyReviewRequestStrategy, store: Snapshot, clock: Clock)
    ensures All([]).ShouldRequestReview(store, clock)
    ensures All([s]).ShouldRequestReview(store, clock) <==> s.ShouldRequestReview(store, clock)
  {
    AllIffEvery([s], store, clock);
  }

  /** `all` of two lists is the conjunction of `all` of each. */
  lemma AllOfConcatenation(a: seq<AnyReviewRequestStrategy>, b: seq<AnyReviewRequestStrategy>, store: Snapshot, clock: Clock)
    ensures All(a + b).ShouldRequestReview(store, clock) <==>
      All(a).ShouldRequestReview(store, clock) && All(b).ShouldRequestReview(store, clock)
  {
    AllIffEvery(a + b, store, clock);
    AllIffEvery(a, store, clock);
    AllIffEvery(b, store, clock);
    assert forall i | 0 <= i < |a| :: (a + b)[i] == a[i];
    assert forall i | 0 <= i < |b| :: (a + b)[|a| + i] == b[i];
  }

  /** `never` inside `all` vetoes every request. */
  lemma NeverVetoesAll(a: seq<AnyReviewRequestStrategy>, b: seq<AnyReviewRequestStrategy>, store: Snapshot, clock: Clock)
    ensures !All(a + [Never()] + b).ShouldRequestReview(store, clock)
  {
    AllIffEvery(a + [Never()] + b, store, clock);
    assert (a + [Never()] + b)[|a|] == Never();
  }
}
