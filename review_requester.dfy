/**
 * `ReviewRequester`: counts launches and positive events in its store and,
 * when its strategy agrees, asks the system for a review prompt and resets
 * the store. What it does outside the store (analytics events, the system
 * request) is recorded in an effect log, in order.
 */
module ReviewRequester {
  import opened Wrappers
  import opened ReviewRequestStore
  import opened ReviewRequestStrategy

  /** `EventAnalyticsModel` */
  datatype AnalyticsEvent = REVIEW_PROMPT_SHOWN | REVIEW_REQUEST_TRIGGERED

  /** An effect outside the store: an analytics event, or the system review request. */
  datatype Effect = Track(event: AnalyticsEvent) | SystemRequest

  /** The strategy a requester gets when none is given: `after(days: 120, launches: 15, events: 5)`. */
  function DefaultStrategy(): AnyReviewRequestStrategy {
    After(120, 15, 5)
  }

  /**
   * The effects of an approved request: the trigger event (with analytics),
   * the system request (when a foreground scene is active), the shown event
   * (with analytics).
   */
  function PromptEffects(analytics: bool, foregroundScene: bool): (r: seq<Effect>)
    ensures SystemRequest in r <==> foregroundScene
    ensures Track(REVIEW_REQUEST_TRIGGERED) in r <==> analytics
    ensures Track(REVIEW_PROMPT_SHOWN) in r <==> analytics
    ensures analytics ==> r[0] == Track(REVIEW_REQUEST_TRIGGERED) && r[|r| - 1] == Track(REVIEW_PROMPT_SHOWN)
    ensures |r| == (if analytics then 2 else 0) + (if foregroundScene then 1 else 0)
  {
    (if analytics then [Track(REVIEW_REQUEST_TRIGGERED)] else []) +
    (if foregroundScene then [SystemRequest] else []) +
    (if analytics then [Track(REVIEW_PROMPT_SHOWN)] else [])
  }

  /**
   * The default strategy agrees exactly when 15 launches and 5 events have
   * been counted and, once a prompt was shown, 120 whole days have passed.
   */
  lemma DefaultStrategyThresholds(store: Snapshot, clock: Clock)
    ensures DefaultStrategy().ShouldRequestReview(store, clock) <==>
      && store.launchesSincePrompt >= 15
      && store.eventsSincePrompt >= 5
      && (store.lastPromptDate.None? || clock.dayCount(store.lastPromptDate.value, clock.now).GetOr(0) >= 120)
  {
    AfterConditions(120, 15, 5, store, clock);
  }

  /**
   * Throttling: after a prompt, and as long as no other prompt is recorded,
   * the default strategy refuses until at least 15 launches have been
   * counted.
   */
  lemma DefaultStrategyThrottles(now: Date, ops: seq<StoreOp>, clock: Clock)
    requires forall i | 0 <= i < |ops| :: !ops[i].RecordPromptShown?
    requires Count(ops, RecordLaunch) < 15
    ensures !DefaultStrategy().ShouldRequestReview(Run(Snapshot(Some(now), 0, 0), ops), clock)
  {
    CountersOnlyResetByPrompt(Snapshot(Some(now), 0, 0), ops);
    DefaultStrategyThresholds(Run(Snapshot(Some(now), 0, 0), ops), clock);
  }

  class ReviewRequester {
    const store: ReviewRequestStore
    const strategy: AnyReviewRequestStrategy
    /** Whether an analytics client is attached (`analytics != nil`). */
    var analyticsAttached: bool
    /** The effects so far, oldest first. */
    var log: seq<Effect>

    /** `init(store:strategy:analytics:)` */
    constructor (store: ReviewRequestStore, strategy: AnyReviewRequestStrategy := DefaultStrategy(), analyticsAttached: bool := false)
      ensures this.store == store && this.strategy == strategy && this.analyticsAttached == analyticsAttached
      ensures log == []
    {
      this.store := store;
      this.strategy := strategy;
      this.analyticsAttached := analyticsAttached;
      log := [];
    }

    /** `applicationDidLaunch()`: records a launch and nothing else (no prompt is attempted). */
    method ApplicationDidLaunch()
      modifies store
      ensures SnapshotOf(store.defaults) == Step(SnapshotOf(old(store.defaults)), StoreOp.RecordLaunch)
      ensures log == old(log)
    {
      store.RecordLaunch();
    }

    /** `recordPositiveEvent()` */
    method RecordPositiveEvent()
      modifies store
      ensures SnapshotOf(store.defaults) == Step(SnapshotOf(old(store.defaults)), StoreOp.RecordEvent)
      ensures log == old(log)
    {
      store.RecordEvent();
    }

    /**
     * `requestIfAppropriate()`: when the strategy refuses, nothing happens;
     * otherwise the effects of `PromptEffects` are emitted in order and then
     * the prompt is recorded in the store at the current instant.
     * `foregroundScene` says whether `performSystemRequest` finds an active
     * window scene to ask in.
     */
    method RequestIfAppropriate(clock: Clock, foregroundScene: bool)
      modifies this`log, store
      ensures var agreed := strategy.ShouldRequestReview(SnapshotOf(old(store.defaults)), clock);
        && (!agreed ==> store.defaults == old(store.defaults) && log == old(log))
        && (agreed ==>
              && SnapshotOf(store.defaults) == Step(SnapshotOf(old(store.defaults)), StoreOp.RecordPromptShown(clock.now))
              && log == old(log) + PromptEffects(analyticsAttached, foregroundScene))
    {
      var snapshot := Snapshot(store.LastPromptDate(), store.LaunchesSincePrompt(), store.EventsSincePrompt());
      if !strategy.ShouldRequestReview(snapshot, clock) {
        return;
      }
      if analyticsAttached {
        log := log + [Track(REVIEW_REQUEST_TRIGGERED)];
      }
      PerformSystemRequest(foregroundScene);
      if analyticsAttached {
        log := log + [Track(REVIEW_PROMPT_SHOWN)];
      }
      store.RecordPromptShown(clock.now);
    }

    /** `performSystemRequest()`: asks for a review only in a foreground-active window scene. */
    method PerformSystemRequest(foregroundScene: bool)
      modifies this`log
      ensures log == old(log) + (if foregroundScene then [SystemRequest] else [])
    {
      if foregroundScene {
        log := log + [SystemRequest];
      }
    }
  }
}
