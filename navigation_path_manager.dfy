/**
 * `NavigationPathManager`: reconciles the declared steps of a flow against
 * the runtime navigation path.
 *
 * The state is the path (a sequence of step identifiers, predefined and
 * custom), the table of predefined steps (an ordered dictionary from
 * identifier to view), the table of custom steps, the set of predefined
 * steps whose removal is deferred until the user is no longer at or past
 * them, and the optional completion binding. Views are a type parameter.
 */
module Navigation {
  import opened Wrappers
  import opened OrderedDictionary
  import opened StepIdentifier

  type Steps<V> = OrderedDict<Identifier, V>

  /** The predefined steps together with the deferred removals. */
  datatype FlowTable<V> = FlowTable(predefined: Steps<V>, pendingRemovals: set<Identifier>)

  function Min(a: nat, b: nat): nat {
    if a <= b then a else b
  }

  // ---------------------------------------------------------------------
  // Where the user is

  /** The position of the last step of `path` that is not custom (`last(where: { !$0.isCustom })`). */
  function LastNonCustomIndex(path: seq<Identifier>): (r: Option<nat>)
    ensures r.Some? ==> r.value < |path| && !IsCustom(path[r.value])
    ensures r.Some? ==> forall k | r.value < k < |path| :: IsCustom(path[k])
    ensures r.None? ==> forall k | 0 <= k < |path| :: IsCustom(path[k])
  {
    if path == [] then None
    else if !IsCustom(path[|path| - 1]) then Some(|path| - 1)
    else LastNonCustomIndex(path[..|path| - 1])
  }

  /**
   * `currentStep`: the last non-custom step of the path; when the path has
   * none, the first predefined step, if any.
   */
  function CurrentStep(path: seq<Identifier>, keys: seq<Identifier>): Option<Identifier> {
    match LastNonCustomIndex(path)
    case Some(j) => Some(path[j])
    case None => if keys == [] then None else Some(keys[0])
  }

  /**
   * With only custom steps on the path, the current step is the first
   * predefined one (none for an empty table); otherwise it is a non-custom
   * step of the path followed by custom steps only.
   */
  lemma CurrentStepIsLastNonCustom(path: seq<Identifier>, keys: seq<Identifier>)
    ensures (forall k | 0 <= k < |path| :: IsCustom(path[k])) ==>
      CurrentStep(path, keys) == (if keys == [] then None else Some(keys[0]))
    ensures (exists k | 0 <= k < |path| :: !IsCustom(path[k])) ==>
      exists j | 0 <= j < |path| :: CurrentStep(path, keys) == Some(path[j]) && !IsCustom(path[j]) &&
        forall k | j < k < |path| :: IsCustom(path[k])
  {
  }

  /** `currentStep.flatMap { keys.firstIndex(of: $0) }` */
  function CurrentIndex(path: seq<Identifier>, keys: seq<Identifier>): (r: Option<nat>)
    ensures r.Some? ==> r.value < |keys| && CurrentStep(path, keys) == Some(keys[r.value])
    ensures r.None? ==> CurrentStep(path, keys).None? || CurrentStep(path, keys).value !in keys
  {
    match CurrentStep(path, keys)
    case None => None
    case Some(c) => FirstIndex(keys, c)
  }

  // ---------------------------------------------------------------------
  // The deferred-removal pass

  /** The keys positioned strictly after index `i`. */
  function After(keys: seq<Identifier>, i: nat): set<Identifier>
    requires i < |keys|
  {
    Elems(keys[i + 1..])
  }

  /**
   * `reapplyPendingRemovalsIfNeeded()` for the current index `current`:
   * nothing when the current step is not a predefined key; otherwise every
   * pending step positioned after the current one leaves both the table and
   * the pending set.
   */
  function PendingRemovalPass<V>(t: FlowTable<V>, current: Option<nat>): (r: FlowTable<V>)
    requires t.predefined.Valid()
    requires current.Some? ==> current.value < |t.predefined.keys|
    ensures r.predefined.Valid()
  {
    match current
    case None => t
    case Some(i) =>
      var doomed := t.pendingRemovals * After(t.predefined.keys, i);
      FlowTable(t.predefined.RemoveAll(doomed), t.pendingRemovals - doomed)
  }

  /** In a duplicate-free key list, a key lies after position `i` exactly when its index exceeds `i`. */
  lemma AfterIffLaterIndex(keys: seq<Identifier>, i: nat, k: Identifier)
    requires Distinct(keys) && i < |keys| && k in keys
    ensures k in After(keys, i) <==> FirstIndex(keys, k).value > i
  {
    var j := FirstIndex(keys, k).value;
    FirstIndexUnique(keys, j);
    if j > i {
      assert keys[i + 1..][j - i - 1] == k;
    }
    if k in After(keys, i) {
      var m :| i < m < |keys| && keys[m] == k;
      FirstIndexUnique(keys, m);
    }
  }

  /** Removing keys that all lie after position `i` leaves positions up to `i` as they were. */
  lemma RemoveAfterKeepsPrefix<V>(d: Steps<V>, i: nat, doomed: set<Identifier>)
    requires d.Valid() && i < |d.keys| && doomed <= After(d.keys, i)
    ensures |d.RemoveAll(doomed).keys| > i
    ensures d.RemoveAll(doomed).keys[..i + 1] == d.keys[..i + 1]
    ensures d.RemoveAll(doomed).keys[i + 1..] == Without(d.keys[i + 1..], doomed)
  {
    assert d.keys == d.keys[..i + 1] + d.keys[i + 1..];
    WithoutConcat(d.keys[..i + 1], d.keys[i + 1..], doomed);
    forall k | k in d.keys[..i + 1] ensures k !in doomed {
      var a :| 0 <= a <= i && d.keys[a] == k;
      assert forall b | i < b < |d.keys| :: d.keys[a] != d.keys[b];
    }
    WithoutNone(d.keys[..i + 1], doomed);
  }

  /** Bookkeeping for the deferred-removal loop: `doomed` is the visited part of the pending set that lies after the current step. */
  lemma DoomedGrows(pending: set<Identifier>, remaining: set<Identifier>, after: set<Identifier>, doomed: set<Identifier>, id: Identifier)
    requires doomed == (pending - remaining) * after && id in remaining && remaining <= pending
    ensures id !in doomed
    ensures id in after ==> doomed + {id} == (pending - (remaining - {id})) * after
    ensures id !in after ==> doomed == (pending - (remaining - {id})) * after
  {
  }

  /**
   * One iteration of the deferred-removal loop: after the keys of `doomed`
   * (all after position `i`) are gone, a further key is found after `i`
   * exactly when it lay after `i` originally.
   */
  lemma ReapplyStep<V>(d0: Steps<V>, i: nat, doomed: set<Identifier>, id: Identifier)
    requires d0.Valid() && i < |d0.keys| && doomed <= After(d0.keys, i) && id !in doomed
    ensures var f := FirstIndex(d0.RemoveAll(doomed).keys, id);
      (f.Some? && f.value > i) <==> id in After(d0.keys, i)
    ensures d0.RemoveAll(doomed).RemoveAll({id}) == d0.RemoveAll(doomed + {id})
  {
    var d := d0.RemoveAll(doomed);
    RemoveAfterKeepsPrefix(d0, i, doomed);
    assert id in After(d0.keys, i) <==> id in d.keys[i + 1..];
    if id in d.keys {
      AfterIffLaterIndex(d.keys, i, id);
    }
    RemoveAllTwice(d0, doomed, {id});
  }

  /**
   * The deferred-removal loop part-way: `doomed` is the visited part of the
   * pending set that lies after position `i`, and `now` is `t0` without it.
   */
  ghost predicate ReapplyProgress<V>(t0: FlowTable<V>, i: nat, remaining: set<Identifier>, doomed: set<Identifier>, now: FlowTable<V>)
    requires t0.predefined.Valid() && i < |t0.predefined.keys|
  {
    && remaining <= t0.pendingRemovals
    && doomed == (t0.pendingRemovals - remaining) * After(t0.predefined.keys, i)
    && now == FlowTable(t0.predefined.RemoveAll(doomed), t0.pendingRemovals - doomed)
  }

  /** Before the deferred-removal loop nothing is visited. */
  lemma ReapplyStart<V>(t0: FlowTable<V>, i: nat)
    requires t0.predefined.Valid() && i < |t0.predefined.keys|
    ensures ReapplyProgress(t0, i, t0.pendingRemovals, {}, t0)
  {
    RemoveNothing(t0.predefined);
  }

  /**
   * One iteration of the deferred-removal loop: the visited id is removed
   * from the table and the pending set exactly when it now sits after
   * position `i`.
   */
  lemma ReapplyAdvance<V>(t0: FlowTable<V>, i: nat, remaining: set<Identifier>, doomed: set<Identifier>, now: FlowTable<V>, id: Identifier)
    requires t0.predefined.Valid() && i < |t0.predefined.keys|
    requires ReapplyProgress(t0, i, remaining, doomed, now) && id in remaining
    ensures now.predefined.Valid()
    ensures var f := FirstIndex(now.predefined.keys, id);
      if f.Some? && f.value > i then
        ReapplyProgress(t0, i, remaining - {id}, doomed + {id}, FlowTable(now.predefined.RemoveValue(id), now.pendingRemovals - {id}))
      else
        ReapplyProgress(t0, i, remaining - {id}, doomed, now)
  {
    if id in After(t0.predefined.keys, i) {
      ReapplyVisitLater(t0, i, remaining, doomed, now, id);
    } else {
      ReapplyVisitEarlier(t0, i, remaining, doomed, now, id);
    }
  }

  /** A visited id that lay after position `i` is still found after it, and goes. */
  lemma ReapplyVisitLater<V>(t0: FlowTable<V>, i: nat, remaining: set<Identifier>, doomed: set<Identifier>, now: FlowTable<V>, id: Identifier)
    requires t0.predefined.Valid() && i < |t0.predefined.keys|
    requires ReapplyProgress(t0, i, remaining, doomed, now) && id in remaining
    requires id in After(t0.predefined.keys, i)
    ensures now.predefined.Valid()
    ensures var f := FirstIndex(now.predefined.keys, id); f.Some? && f.value > i
    ensures ReapplyProgress(t0, i, remaining - {id}, doomed + {id}, FlowTable(now.predefined.RemoveValue(id), now.pendingRemovals - {id}))
  {
    ReapplyStep(t0.predefined, i, doomed, id);
    DoomedGrows(t0.pendingRemovals, remaining, After(t0.predefined.keys, i), doomed, id);
  }

  /** A visited id that did not lie after position `i` is not found after it, and stays. */
  lemma ReapplyVisitEarlier<V>(t0: FlowTable<V>, i: nat, remaining: set<Identifier>, doomed: set<Identifier>, now: FlowTable<V>, id: Identifier)
    requires t0.predefined.Valid() && i < |t0.predefined.keys|
    requires ReapplyProgress(t0, i, remaining, doomed, now) && id in remaining
    requires id !in After(t0.predefined.keys, i)
    ensures now.predefined.Valid()
    ensures var f := FirstIndex(now.predefined.keys, id); !(f.Some? && f.value > i)
    ensures ReapplyProgress(t0, i, remaining - {id}, doomed, now)
  {
    ReapplyStep(t0.predefined, i, doomed, id);
    DoomedGrows(t0.pendingRemovals, remaining, After(t0.predefined.keys, i), doomed, id);
  }

  /** Once every pending id is visited, the loop has computed the pass. */
  lemma ReapplyDone<V>(t0: FlowTable<V>, i: nat, doomed: set<Identifier>, now: FlowTable<V>)
    requires t0.predefined.Valid() && i < |t0.predefined.keys|
    requires ReapplyProgress(t0, i, {}, doomed, now)
    ensures now == PendingRemovalPass(t0, Some(i))
  {
    assert t0.pendingRemovals - {} == t0.pendingRemovals;
  }

  /** The pass keeps every step at or before the current one, takes out
   * exactly the pending steps after it, and leaves no pending step after
   * the current one.
   */
  lemma PendingRemovalPassEffect<V>(t: FlowTable<V>, i: nat)
    requires t.predefined.Valid() && i < |t.predefined.keys|
    ensures var r := PendingRemovalPass(t, Some(i));
      && i < |r.predefined.keys|
      && r.predefined.keys[..i + 1] == t.predefined.keys[..i + 1]
      && (forall k | k in t.predefined.keys ::
            k !in r.predefined.keys <==> k in t.pendingRemovals && k in After(t.predefined.keys, i))
      && r.pendingRemovals <= t.pendingRemovals
      && (forall k | k in r.predefined.keys[i + 1..] :: k !in r.pendingRemovals)
  {
    var doomed := t.pendingRemovals * After(t.predefined.keys, i);
    RemoveAfterKeepsPrefix(t.predefined, i, doomed);
  }

  /** Running the pass a second time at the same position changes nothing. */
  lemma PendingRemovalPassIdempotent<V>(t: FlowTable<V>, i: nat)
    requires t.predefined.Valid() && i < |t.predefined.keys|
    ensures var r := PendingRemovalPass(t, Some(i));
      i < |r.predefined.keys| && PendingRemovalPass(r, Some(i)) == r
  {
    var r := PendingRemovalPass(t, Some(i));
    PendingRemovalPassEffect(t, i);
    RemoveAfterKeepsPrefix(t.predefined, i, t.pendingRemovals * After(t.predefined.keys, i));
    var doomed2 := r.pendingRemovals * After(r.predefined.keys, i);
    assert doomed2 == {};
    RemoveNothing(r.predefined);
  }

  // ---------------------------------------------------------------------
  // Reconciling a new declaration

  /** The identifiers of the declared elements, in order. */
  function Identifiers<V>(elements: seq<StepElement<V>>): (ids: seq<Identifier>)
    ensures |ids| == |elements|
    ensures forall i | 0 <= i < |elements| :: ids[i] == FromElement(elements[i])
  {
    seq(|elements|, i requires 0 <= i < |elements| => FromElement(elements[i]))
  }

  /** Some declared element has identifier `k` (`newIdentifiers.contains(k)`). */
  ghost predicate Declares<V>(elements: seq<StepElement<V>>, k: Identifier) {
    exists e | e in elements :: FromElement(e) == k
  }

  /**
   * The insertion loop of `updateViews`: an identifier not yet in the table
   * is appended with its view; one found at or before index `current` is
   * skipped; one found after it is a duplicate (`preconditionFailure`).
   */
  function InsertNew<V>(d: Steps<V>, current: nat, elements: seq<StepElement<V>>): (r: Result<Steps<V>, Identifier>)
    requires d.Valid()
    decreases elements
    ensures r.Success? ==> r.value.Valid()
    ensures r.Success? ==> |d.keys| <= |r.value.keys| && r.value.keys[..|d.keys|] == d.keys
  {
    if elements == [] then
      assert d.keys[..|d.keys|] == d.keys;
      Success(d)
    else
      var id := FromElement(elements[0]);
      match FirstIndex(d.keys, id)
      case Some(existing) =>
        if existing > current then Failure(id)
        else InsertNew(d, current, elements[1..])
      case None =>
        var r := InsertNew(d.Assign(id, elements[0].view), current, elements[1..]);
        if r.Success? then
          assert r.value.keys[..|d.keys|] == r.value.keys[..|d.keys| + 1][..|d.keys|];
          r
        else r
  }

  /** On success every declared identifier is in the table. */
  lemma {:induction false} InsertNewCoversDeclared<V>(d: Steps<V>, current: nat, elements: seq<StepElement<V>>)
    requires d.Valid()
    decreases elements
    ensures var r := InsertNew(d, current, elements);
      r.Success? ==> forall e | e in elements :: FromElement(e) in r.value.keys
  {
    if elements != [] {
      var id := FromElement(elements[0]);
      var rest := elements[1..];
      var r := InsertNew(d, current, elements);
      match FirstIndex(d.keys, id)
      case Some(existing) =>
        if existing <= current {
          InsertNewCoversDeclared(d, current, rest);
          if r.Success? {
            assert r.value.keys[..|d.keys|] == d.keys;
            assert id in r.value.keys[..|d.keys|];
          }
        }
      case None =>
        var d' := d.Assign(id, elements[0].view);
        InsertNewCoversDeclared(d', current, rest);
        if r.Success? {
          assert r.value.keys[..|d'.keys|] == d'.keys;
          assert id in r.value.keys[..|d'.keys|];
        }
    }
  }

  /** On success every appended key was declared. */
  lemma {:induction false} InsertNewAppendsDeclared<V>(d: Steps<V>, current: nat, elements: seq<StepElement<V>>)
    requires d.Valid()
    decreases elements
    ensures var r := InsertNew(d, current, elements);
      r.Success? ==> forall i | |d.keys| <= i < |r.value.keys| :: Declares(elements, r.value.keys[i])
  {
    if elements != [] {
      var id := FromElement(elements[0]);
      var rest := elements[1..];
      var r := InsertNew(d, current, elements);
      DeclaresTail(elements);
      match FirstIndex(d.keys, id)
      case Some(existing) =>
        if existing <= current {
          InsertNewAppendsDeclared(d, current, rest);
          var r' := InsertNew(d, current, rest);
          assert r == r';
        }
      case None =>
        var d' := d.Assign(id, elements[0].view);
        InsertNewAppendsDeclared(d', current, rest);
        var r' := InsertNew(d', current, rest);
        assert r == r';
        assert |d'.keys| == |d.keys| + 1;
        if r'.Success? {
          assert Declares(elements, id) by {
            assert elements[0] in elements;
          }
          forall i | |d.keys| <= i < |r'.value.keys| ensures Declares(elements, r'.value.keys[i]) {
            if i == |d.keys| {
              assert r'.value.keys[i] == r'.value.keys[..|d'.keys|][i] == id;
            } else {
              assert Declares(rest, r'.value.keys[i]);
            }
          }
        }
    }
  }

  /** Whatever the tail declares, the whole sequence declares. */
  lemma DeclaresTail<V>(elements: seq<StepElement<V>>)
    requires elements != []
    ensures forall k | Declares(elements[1..], k) :: Declares(elements, k)
  {
    forall k | Declares(elements[1..], k) ensures Declares(elements, k) {
      var e :| e in elements[1..] && FromElement(e) == k;
      assert e in elements;
    }
  }

  /** On success the views of the keys already present are untouched. */
  lemma {:induction false} InsertNewKeepsViews<V>(d: Steps<V>, current: nat, elements: seq<StepElement<V>>)
    requires d.Valid()
    decreases elements
    ensures var r := InsertNew(d, current, elements);
      r.Success? ==> forall k | k in d.values :: k in r.value.values && r.value.values[k] == d.values[k]
  {
    if elements != [] {
      var id := FromElement(elements[0]);
      match FirstIndex(d.keys, id)
      case Some(existing) =>
        if existing <= current {
          InsertNewKeepsViews(d, current, elements[1..]);
        }
      case None =>
        InsertNewKeepsViews(d.Assign(id, elements[0].view), current, elements[1..]);
    }
  }

  /** No element before position `i` declares the identifier of `elements[i]`. */
  ghost predicate FirstDeclaration<V>(elements: seq<StepElement<V>>, i: nat)
    requires i < |elements|
  {
    forall j | 0 <= j < i :: FromElement(elements[j]) != FromElement(elements[i])
  }

  /**
   * On success an identifier that was not in the table is stored with the
   * view of the first element declaring it; later repeats do not replace it.
   */
  lemma {:induction false} InsertNewStoresFirstDeclaredView<V>(d: Steps<V>, current: nat, elements: seq<StepElement<V>>)
    requires d.Valid()
    decreases elements
    ensures var r := InsertNew(d, current, elements);
      r.Success? ==> forall i | 0 <= i < |elements| && FromElement(elements[i]) !in d.keys && FirstDeclaration(elements, i) ::
        FromElement(elements[i]) in r.value.values && r.value.values[FromElement(elements[i])] == elements[i].view
  {
    if elements != [] {
      var id := FromElement(elements[0]);
      var rest := elements[1..];
      match FirstIndex(d.keys, id)
      case Some(existing) =>
        if existing <= current {
          InsertNewStoresFirstDeclaredView(d, current, rest);
          TailFirstDeclarations(d, d, elements);
        }
      case None =>
        var d' := d.Assign(id, elements[0].view);
        InsertNewStoresFirstDeclaredView(d', current, rest);
        InsertNewKeepsViews(d', current, rest);
        TailFirstDeclarations(d, d', elements);
    }
  }

  /**
   * Helper: a first declaration after the head, of an identifier outside
   * `d`, is a first declaration of the tail, outside `d'` (the table after
   * the head is handled).
   */
  lemma TailFirstDeclarations<V>(d: Steps<V>, d': Steps<V>, elements: seq<StepElement<V>>)
    requires elements != []
    requires forall k | k in d'.keys :: k in d.keys || k == FromElement(elements[0])
    ensures forall i | 1 <= i < |elements| && FromElement(elements[i]) !in d.keys && FirstDeclaration(elements, i) ::
      FromElement(elements[1..][i - 1]) !in d'.keys && FirstDeclaration(elements[1..], i - 1)
  {
    var rest := elements[1..];
    forall i | 1 <= i < |elements| && FromElement(elements[i]) !in d.keys && FirstDeclaration(elements, i)
      ensures FromElement(rest[i - 1]) !in d'.keys && FirstDeclaration(rest, i - 1)
    {
      assert rest[i - 1] == elements[i];
      assert FromElement(elements[0]) != FromElement(elements[i]);
      forall j | 0 <= j < i - 1 ensures FromElement(rest[j]) != FromElement(rest[i - 1]) {
        assert rest[j] == elements[j + 1];
      }
    }
  }

  /** A failure names a declared identifier that is already in the table after the current index. */
  lemma {:induction false} InsertNewFailureIsDuplicate<V>(d: Steps<V>, current: nat, elements: seq<StepElement<V>>)
    requires d.Valid()
    decreases elements
    ensures var r := InsertNew(d, current, elements);
      r.Failure? ==> Declares(elements, r.error)
  {
    if elements != [] {
      var id := FromElement(elements[0]);
      assert elements[0] in elements;
      assert forall e | e in elements[1..] :: e in elements;
      match FirstIndex(d.keys, id)
      case Some(existing) =>
        if existing <= current {
          InsertNewFailureIsDuplicate(d, current, elements[1..]);
        }
      case None =>
        InsertNewFailureIsDuplicate(d.Assign(id, elements[0].view), current, elements[1..]);
    }
  }

  /** The kept keys the new declaration no longer lists (`!newIdentifiers.contains(key)`). */
  function Retired(ks: seq<Identifier>, ids: seq<Identifier>): (r: set<Identifier>)
    ensures forall k :: k in r <==> k in ks && k !in ids
  {
    set k | k in ks && k !in ids
  }

  /**
   * One iteration of the first loop of `updateViews` on `key`: deleted when
   * it lies after the current index (`late`); otherwise it becomes a pending
   * removal unless `ids` lists it.
   */
  function DropNext<V>(prev: FlowTable<V>, key: Identifier, late: bool, ids: seq<Identifier>): (r: FlowTable<V>)
    requires prev.predefined.Valid()
    ensures r.predefined.Valid()
  {
    if late then FlowTable(prev.predefined.RemoveValue(key), prev.pendingRemovals)
    else if key !in ids then FlowTable(prev.predefined, prev.pendingRemovals + {key})
    else prev
  }

  /** The first loop of `updateViews` after its first `index` iterations. */
  ghost function DropLoop<V>(t: FlowTable<V>, current: nat, ids: seq<Identifier>, index: nat): (r: FlowTable<V>)
    requires t.predefined.Valid() && index <= |t.predefined.keys|
    ensures r.predefined.Valid()
  {
    if index == 0 then t
    else DropNext(DropLoop(t, current, ids, index - 1), t.predefined.keys[index - 1], index - 1 > current, ids)
  }

  /**
   * Where the first loop of `updateViews` stands after `index` iterations,
   * stated directly: with `n` kept keys, the keys from position `n` up to
   * `index` are deleted, and the unlisted keys among the first
   * `min(index, n)` are pending.
   */
  function DropSoFar<V>(t: FlowTable<V>, current: nat, ids: seq<Identifier>, index: nat): (r: FlowTable<V>)
    requires t.predefined.Valid() && index <= |t.predefined.keys|
    ensures r.predefined.Valid()
  {
    var n := Min(current + 1, |t.predefined.keys|);
    FlowTable(t.predefined.RemoveAll(Elems(t.predefined.keys[Min(index, n)..index])),
              t.pendingRemovals + Retired(t.predefined.keys[..Min(index, n)], ids))
  }

  /** The loop so far agrees with the direct statement. */
  lemma {:induction false} DropLoopSoFar<V>(t: FlowTable<V>, current: nat, ids: seq<Identifier>, index: nat)
    requires t.predefined.Valid() && index <= |t.predefined.keys|
    ensures DropLoop(t, current, ids, index) == DropSoFar(t, current, ids, index)
  {
    if index == 0 {
      DropEntry(t, current, ids);
    } else {
      DropLoopSoFar(t, current, ids, index - 1);
      DropAdvance(t, current, ids, index - 1);
    }
  }

  /**
   * The first loop of `updateViews` as a whole: the keys at or before the
   * current index stay, every later one is deleted, and the kept keys that
   * `ids` does not list join the pending removals.
   */
  lemma DropLoopResult<V>(t: FlowTable<V>, current: nat, ids: seq<Identifier>)
    requires t.predefined.Valid()
    ensures DropLoop(t, current, ids, |t.predefined.keys|) == DropAfter(t, current, ids)
  {
    DropLoopSoFar(t, current, ids, |t.predefined.keys|);
    DropExit(t, current, ids);
  }

  /** Before the first loop of `updateViews` nothing is deleted or retired. */
  lemma DropEntry<V>(t: FlowTable<V>, current: nat, ids: seq<Identifier>)
    requires t.predefined.Valid()
    ensures DropSoFar(t, current, ids, 0) == t
  {
    var d0 := t.predefined;
    var n := Min(current + 1, |d0.keys|);
    assert Min(0, n) == 0;
    assert Elems(d0.keys[0..0]) == {};
    assert Retired(d0.keys[..0], ids) == {};
    RemoveNothing(d0);
  }

  /** After the first loop of `updateViews` the first `n` keys are what is left. */
  lemma DropExit<V>(t: FlowTable<V>, current: nat, ids: seq<Identifier>)
    requires t.predefined.Valid()
    ensures DropSoFar(t, current, ids, |t.predefined.keys|) == DropAfter(t, current, ids)
  {
    var d0 := t.predefined;
    var n := Min(current + 1, |d0.keys|);
    assert Min(|d0.keys|, n) == n;
    assert d0.keys[n..|d0.keys|] == d0.keys[n..];
    RemoveSuffixIsPrefix(d0, n);
  }

  /** One more iteration of the first loop of `updateViews` keeps the direct statement. */
  lemma DropAdvance<V>(t: FlowTable<V>, current: nat, ids: seq<Identifier>, index: nat)
    requires t.predefined.Valid() && index < |t.predefined.keys|
    ensures DropSoFar(t, current, ids, index + 1) ==
      DropNext(DropSoFar(t, current, ids, index), t.predefined.keys[index], index > current, ids)
  {
    if index > current {
      DropStep(t, current, ids, index);
    } else {
      KeepStep(t, current, ids, index);
    }
  }

  /**
   * One step of the first loop of `updateViews` at an index after the
   * current one: the key is deleted, nothing is retired.
   */
  lemma DropStep<V>(t: FlowTable<V>, current: nat, ids: seq<Identifier>, index: nat)
    requires t.predefined.Valid() && current < index < |t.predefined.keys|
    ensures var prev := DropSoFar(t, current, ids, index);
      DropSoFar(t, current, ids, index + 1) ==
        FlowTable(prev.predefined.RemoveValue(t.predefined.keys[index]), prev.pendingRemovals)
  {
    var d0 := t.predefined;
    var ks := d0.keys;
    var n := Min(current + 1, |ks|);
    assert Min(index, n) == n == Min(index + 1, n);
    assert ks[n..index + 1] == ks[n..index] + [ks[index]];
    assert Elems(ks[n..index + 1]) == Elems(ks[n..index]) + {ks[index]};
    RemoveAllTwice(d0, Elems(ks[n..index]), {ks[index]});
  }

  /**
   * One step of the first loop of `updateViews` at an index at or before the
   * current one: nothing is deleted, and the key is retired exactly when
   * `ids` does not list it.
   */
  lemma KeepStep<V>(t: FlowTable<V>, current: nat, ids: seq<Identifier>, index: nat)
    requires t.predefined.Valid() && index <= current && index < |t.predefined.keys|
    ensures var prev := DropSoFar(t, current, ids, index);
      var key := t.predefined.keys[index];
      DropSoFar(t, current, ids, index + 1) ==
        if key !in ids then FlowTable(prev.predefined, prev.pendingRemovals + {key}) else prev
  {
    var ks := t.predefined.keys;
    var n := Min(current + 1, |ks|);
    assert Min(index, n) == index && Min(index + 1, n) == index + 1;
    assert ks[index..index] == [] == ks[index + 1..index + 1];
    assert ks[..index + 1] == ks[..index] + [ks[index]];
    assert Retired(ks[..index + 1], ids) == Retired(ks[..index], ids) + (if ks[index] in ids then {} else {ks[index]});
  }

  /**
   * The first loop of `updateViews` from the index `current`: the keys at or
   * before it stay in order, every later one is deleted, and the kept keys
   * that `ids` does not list become pending removals.
   */
  function DropAfter<V>(t: FlowTable<V>, current: nat, ids: seq<Identifier>): (r: FlowTable<V>)
    requires t.predefined.Valid()
    ensures r.predefined.Valid()
  {
    var n := Min(current + 1, |t.predefined.keys|);
    FlowTable(t.predefined.Prefix(n), t.pendingRemovals + Retired(t.predefined.keys[..n], ids))
  }

  /** The second loop of `updateViews`: `InsertNew` on the table, pending removals untouched. */
  function InsertInto<V>(t: FlowTable<V>, current: nat, elements: seq<StepElement<V>>): (r: Result<FlowTable<V>, Identifier>)
    requires t.predefined.Valid()
    ensures r.Success? ==> r.value.predefined.Valid()
  {
    match InsertNew(t.predefined, current, elements)
    case Failure(dup) => Failure(dup)
    case Success(d) => Success(FlowTable(d, t.pendingRemovals))
  }

  /**
   * `updateViews(with:)` up to (not including) the deferred-removal pass and
   * the completion update: the current index defaults to 0; keys after it are
   * deleted; kept keys the new declaration no longer mentions become pending
   * removals; then the new identifiers are inserted.
   */
  function Reconcile<V>(t: FlowTable<V>, path: seq<Identifier>, elements: seq<StepElement<V>>): (r: Result<FlowTable<V>, Identifier>)
    requires t.predefined.Valid()
    ensures r.Success? ==> r.value.predefined.Valid()
  {
    var current := CurrentIndex(path, t.predefined.keys).GetOr(0);
    InsertInto(DropAfter(t, current, Identifiers(elements)), current, elements)
  }

  /** The index `updateViews` works from: the current step's index, or 0. */
  function ReconcileIndex<V>(t: FlowTable<V>, path: seq<Identifier>): nat {
    CurrentIndex(path, t.predefined.keys).GetOr(0)
  }

  /** How many keys `updateViews` keeps in place: those at or before the current index. */
  function KeptCount<V>(t: FlowTable<V>, path: seq<Identifier>): (n: nat)
    ensures n <= |t.predefined.keys|
  {
    Min(ReconcileIndex(t, path) + 1, |t.predefined.keys|)
  }

  /** A successful `Reconcile` is `InsertNew` on the kept prefix, with the retired keys made pending. */
  lemma ReconcileParts<V>(t: FlowTable<V>, path: seq<Identifier>, elements: seq<StepElement<V>>)
    requires t.predefined.Valid()
    requires Reconcile(t, path, elements).Success?
    ensures var n := KeptCount(t, path);
      var ins := InsertNew(t.predefined.Prefix(n), ReconcileIndex(t, path), elements);
      && ins.Success?
      && Reconcile(t, path, elements).value ==
           FlowTable(ins.value, t.pendingRemovals + Retired(t.predefined.keys[..n], Identifiers(elements)))
  {
  }

  /**
   * On success the keys at or before the current index stay first, in their
   * order, and every declared identifier is in the table.
   */
  lemma ReconcileKeepsUpToCurrent<V>(t: FlowTable<V>, path: seq<Identifier>, elements: seq<StepElement<V>>)
    requires t.predefined.Valid()
    requires Reconcile(t, path, elements).Success?
    ensures var n := KeptCount(t, path);
      var r := Reconcile(t, path, elements).value;
      && n <= |r.predefined.keys|
      && r.predefined.keys[..n] == t.predefined.keys[..n]
      && (forall e | e in elements :: FromElement(e) in r.predefined.keys)
  {
    ReconcileParts(t, path, elements);
    InsertNewCoversDeclared(t.predefined.Prefix(KeptCount(t, path)), ReconcileIndex(t, path), elements);
  }

  /**
   * On success a key after the current index survives exactly when it is
   * declared again (it is then re-appended after the kept keys).
   */
  lemma ReconcileDropsLaterKeys<V>(t: FlowTable<V>, path: seq<Identifier>, elements: seq<StepElement<V>>, j: nat)
    requires t.predefined.Valid()
    requires Reconcile(t, path, elements).Success?
    requires KeptCount(t, path) <= j < |t.predefined.keys|
    ensures t.predefined.keys[j] in Reconcile(t, path, elements).value.predefined.keys <==>
      Declares(elements, t.predefined.keys[j])
  {
    ReconcileParts(t, path, elements);
    LaterKeyReinsertedIffDeclared(t.predefined, KeptCount(t, path), ReconcileIndex(t, path), elements, j);
  }

  /**
   * A key of `d` after its first `n` is in the result of inserting into the
   * first `n` exactly when it is declared.
   */
  lemma LaterKeyReinsertedIffDeclared<V>(d: Steps<V>, n: nat, current: nat, elements: seq<StepElement<V>>, j: nat)
    requires d.Valid() && n <= j < |d.keys|
    requires InsertNew(d.Prefix(n), current, elements).Success?
    ensures d.keys[j] in InsertNew(d.Prefix(n), current, elements).value.keys <==> Declares(elements, d.keys[j])
  {
    var kept := d.Prefix(n);
    var keys := InsertNew(kept, current, elements).value.keys;
    var k := d.keys[j];
    InsertNewCoversDeclared(kept, current, elements);
    InsertNewAppendsDeclared(kept, current, elements);
    assert k !in kept.keys by {
      assert forall a | 0 <= a < n :: d.keys[a] != d.keys[j];
    }
    if k in keys {
      var i :| 0 <= i < |keys| && keys[i] == k;
      assert n <= i;
    }
  }

  /**
   * On success a kept key that is no longer declared is not deleted but
   * becomes a pending removal, and nothing else joins the pending set.
   */
  lemma ReconcileDefersUndeclared<V>(t: FlowTable<V>, path: seq<Identifier>, elements: seq<StepElement<V>>)
    requires t.predefined.Valid()
    requires Reconcile(t, path, elements).Success?
    ensures var n := KeptCount(t, path);
      var r := Reconcile(t, path, elements).value;
      && (forall k | k in t.predefined.keys[..n] && !Declares(elements, k) ::
            k in r.predefined.keys && k in r.pendingRemovals)
      && (forall k | k in r.pendingRemovals :: k in t.pendingRemovals || k in t.predefined.keys[..n])
  {
    var n := KeptCount(t, path);
    ReconcileKeepsUpToCurrent(t, path, elements);
    ReconcileParts(t, path, elements);
    forall k ensures Declares(elements, k) <==> k in Identifiers(elements) {
      DeclaresIffListed(elements, k);
    }
  }

  /**
   * On success a kept key keeps its view, and an identifier outside the kept
   * keys (new, or a later key declared again) gets the view of the first
   * element declaring it.
   */
  lemma ReconcileViews<V>(t: FlowTable<V>, path: seq<Identifier>, elements: seq<StepElement<V>>)
    requires t.predefined.Valid()
    requires Reconcile(t, path, elements).Success?
    ensures var n := KeptCount(t, path);
      var r := Reconcile(t, path, elements).value.predefined;
      && (forall k | k in t.predefined.keys[..n] :: k in r.values && r.values[k] == t.predefined.values[k])
      && (forall i | 0 <= i < |elements| && FromElement(elements[i]) !in t.predefined.keys[..n] && FirstDeclaration(elements, i) ::
            FromElement(elements[i]) in r.values && r.values[FromElement(elements[i])] == elements[i].view)
  {
    var n := KeptCount(t, path);
    var kept := t.predefined.Prefix(n);
    ReconcileParts(t, path, elements);
    InsertNewKeepsViews(kept, ReconcileIndex(t, path), elements);
    InsertNewStoresFirstDeclaredView(kept, ReconcileIndex(t, path), elements);
  }

  /**
   * Declaring pairwise distinct identifiers never trips the duplicate check
   * when no key lies after the current index (as after the deletion step of
   * `updateViews`).
   */
  lemma DistinctIdentifiersNeverConflict<V>(d: Steps<V>, current: nat, elements: seq<StepElement<V>>)
    requires d.Valid() && |d.keys| <= current + 1
    requires Distinct(Identifiers(elements))
    ensures InsertNew(d, current, elements).Success?
  {
    DistinctAccepted(d, current, elements);
  }

  /** Helper: distinct new identifiers are accepted when every one already present sits at or before `current`. */
  lemma {:induction false} DistinctAccepted<V>(d: Steps<V>, current: nat, elements: seq<StepElement<V>>)
    decreases elements
    requires d.Valid()
    requires Distinct(Identifiers(elements))
    requires forall k | k in d.keys && k in Identifiers(elements) :: FirstIndex(d.keys, k).value <= current
    ensures InsertNew(d, current, elements).Success?
  {
    if elements != [] {
      var ids := Identifiers(elements);
      var id := ids[0];
      var rest := elements[1..];
      assert Identifiers(rest) == ids[1..];
      assert forall k | k in ids[1..] :: k != id;
      if id in d.keys {
        DistinctAccepted(d, current, rest);
      } else {
        var d' := d.Assign(id, elements[0].view);
        forall k | k in d'.keys && k in Identifiers(rest)
          ensures FirstIndex(d'.keys, k).value <= current
        {
          assert k != id;
          assert d'.keys[..|d.keys|] == d.keys;
          FirstIndexUnique(d.keys, FirstIndex(d.keys, k).value);
          FirstIndexUnique(d'.keys, FirstIndex(d.keys, k).value);
        }
        DistinctAccepted(d', current, rest);
      }
    }
  }

  /** A declared identifier is one of `Identifiers(elements)`. */
  lemma DeclaresIffListed<V>(elements: seq<StepElement<V>>, k: Identifier)
    ensures Declares(elements, k) <==> k in Identifiers(elements)
  {
    if Declares(elements, k) {
      var e :| e in elements && FromElement(e) == k;
      var i :| 0 <= i < |elements| && elements[i] == e;
      assert Identifiers(elements)[i] == k;
    }
    if k in Identifiers(elements) {
      var i :| 0 <= i < |elements| && Identifiers(elements)[i] == k;
      assert elements[i] in elements;
    }
  }

  /**
   * A key already in the table after the current index that is declared
   * again trips the duplicate check (`preconditionFailure`).
   */
  lemma {:induction false} LaterKeyRedeclaredFails<V>(d: Steps<V>, current: nat, elements: seq<StepElement<V>>, k: Identifier)
    decreases elements
    requires d.Valid() && k in d.keys && FirstIndex(d.keys, k).value > current
    requires Declares(elements, k)
    ensures InsertNew(d, current, elements).Failure?
  {
    var id := FromElement(elements[0]);
    var rest := elements[1..];
    if id != k {
      assert Declares(rest, k) by {
        var e :| e in elements && FromElement(e) == k;
        assert e != elements[0];
        assert e in rest;
      }
    }
    match FirstIndex(d.keys, id)
    case Some(existing) =>
      if existing <= current {
        LaterKeyRedeclaredFails(d, current, rest, k);
      }
    case None =>
      var d' := d.Assign(id, elements[0].view);
      assert d'.keys[..|d.keys|] == d.keys;
      FirstIndexUnique(d.keys, FirstIndex(d.keys, k).value);
      FirstIndexUnique(d'.keys, FirstIndex(d.keys, k).value);
      LaterKeyRedeclaredFails(d', current, rest, k);
  }

  /**
   * When the table already reaches past the current index, an identifier
   * that is new to the table and declared twice trips the duplicate check:
   * its first occurrence is appended after the current index, its second is
   * then found there.
   */
  lemma {:induction false} RepeatedNewIdentifierFails<V>(d: Steps<V>, current: nat, elements: seq<StepElement<V>>, i: nat, j: nat)
    decreases elements
    requires d.Valid() && current < |d.keys|
    requires i < j < |elements| && FromElement(elements[i]) == FromElement(elements[j])
    requires FromElement(elements[i]) !in d.keys
    ensures InsertNew(d, current, elements).Failure?
  {
    var id := FromElement(elements[0]);
    var rest := elements[1..];
    var dup := FromElement(elements[i]);
    match FirstIndex(d.keys, id)
    case Some(existing) =>
      if existing <= current {
        RepeatedNewIdentifierFails(d, current, rest, i - 1, j - 1);
      }
    case None =>
      var d' := d.Assign(id, elements[0].view);
      if id == dup {
        FirstIndexUnique(d'.keys, |d.keys|);
        assert rest[j - 1] in rest;
        LaterKeyRedeclaredFails(d', current, rest, id);
      } else {
        RepeatedNewIdentifierFails(d', current, rest, i - 1, j - 1);
      }
  }

  // ---------------------------------------------------------------------
  // What the insertion loop appends, and where it stops

  /** `present` with `id` appended unless it is already there. */
  function Extend(present: seq<Identifier>, id: Identifier): seq<Identifier> {
    if id in present then present else present + [id]
  }

  /**
   * The identifiers of `ids` that are not in `present`, each at its first
   * occurrence, in the order of `ids`.
   */
  function NewKeys(present: seq<Identifier>, ids: seq<Identifier>): seq<Identifier>
    decreases ids
  {
    if ids == [] then []
    else (if ids[0] in present then [] else [ids[0]]) + NewKeys(Extend(present, ids[0]), ids[1..])
  }

  /** `NewKeys` lists exactly the identifiers of `ids` missing from `present`. */
  lemma {:induction false} NewKeysMembers(present: seq<Identifier>, ids: seq<Identifier>)
    decreases ids
    ensures forall k :: k in NewKeys(present, ids) <==> k in ids && k !in present
  {
    if ids != [] {
      NewKeysMembers(Extend(present, ids[0]), ids[1..]);
      assert forall k | k in ids :: k == ids[0] || k in ids[1..];
    }
  }

  /** Pairwise distinct identifiers none of which is present are all new, in their order. */
  lemma {:induction false} NewKeysOfFresh(present: seq<Identifier>, ids: seq<Identifier>)
    decreases ids
    requires Distinct(ids) && forall k | k in ids :: k !in present
    ensures NewKeys(present, ids) == ids
  {
    if ids != [] {
      var h, t := ids[0], ids[1..];
      assert Distinct(t) by {
        forall i, j | 0 <= i < j < |t| ensures t[i] != t[j] {
          assert t[i] == ids[i + 1] && t[j] == ids[j + 1];
        }
      }
      forall k | k in t ensures k !in present + [h] {
        var i :| 0 <= i < |t| && t[i] == k;
        assert ids[i + 1] == k && ids[0] != ids[i + 1];
      }
      NewKeysOfFresh(present + [h], t);
      assert Extend(present, h) == present + [h];
      assert [h] + t == ids;
    }
  }

  /**
   * On success the insertion loop appends, after the old keys, exactly the
   * declared identifiers that were not yet in the table, each once, in the
   * order of their first declaration.
   */
  lemma {:induction false} InsertNewAppendsInOrder<V>(d: Steps<V>, current: nat, elements: seq<StepElement<V>>)
    requires d.Valid()
    requires InsertNew(d, current, elements).Success?
    decreases elements
    ensures InsertNew(d, current, elements).value.keys == d.keys + NewKeys(d.keys, Identifiers(elements))
  {
    var ids := Identifiers(elements);
    if elements == [] {
      assert d.keys + [] == d.keys;
    } else {
      var f := FirstIndex(d.keys, FromElement(elements[0]));
      assert !(f.Some? && f.value > current);
      var dd := InsertNewStep(d, current, elements);
      InsertNewAppendsInOrder(dd, current, elements[1..]);
      NewKeysStep(d.keys, ids);
    }
  }

  /** Handling one more identifier moves it from the new keys to the keys built so far. */
  lemma NewKeysStep(present: seq<Identifier>, ids: seq<Identifier>)
    requires ids != []
    ensures present + NewKeys(present, ids) == Extend(present, ids[0]) + NewKeys(Extend(present, ids[0]), ids[1..])
  {
  }

  /**
   * The first iteration of the insertion loop when it does not trip (the
   * first identifier is not found after the current index): the
   * table becomes `dd`, whose keys have the first identifier added if it was
   * missing, and the loop goes on with the rest.
   */
  lemma InsertNewStep<V>(d: Steps<V>, current: nat, elements: seq<StepElement<V>>) returns (dd: Steps<V>)
    requires d.Valid() && elements != []
    requires var f := FirstIndex(d.keys, FromElement(elements[0])); !(f.Some? && f.value > current)
    ensures dd.Valid() && dd.keys == Extend(d.keys, Identifiers(elements)[0])
    ensures Identifiers(elements[1..]) == Identifiers(elements)[1..]
    ensures InsertNew(d, current, elements) == InsertNew(dd, current, elements[1..])
  {
    var id := FromElement(elements[0]);
    dd := if FirstIndex(d.keys, id).None? then d.Assign(id, elements[0].view) else d;
  }

  /**
   * Pairwise distinct identifiers, none already in the table, are all
   * accepted and appended in declaration order.
   */
  lemma InsertNewFreshInOrder<V>(d: Steps<V>, current: nat, elements: seq<StepElement<V>>)
    requires d.Valid()
    requires Distinct(Identifiers(elements)) && forall k | k in Identifiers(elements) :: k !in d.keys
    ensures InsertNew(d, current, elements).Success?
    ensures InsertNew(d, current, elements).value.keys == d.keys + Identifiers(elements)
  {
    DistinctAccepted(d, current, elements);
    InsertNewAppendsInOrder(d, current, elements);
    NewKeysOfFresh(d.keys, Identifiers(elements));
  }

  /** The keys once the insertion loop has handled the first `j` identifiers without tripping. */
  function KeysBefore(keys0: seq<Identifier>, ids: seq<Identifier>, j: nat): seq<Identifier>
    requires j <= |ids|
  {
    keys0 + NewKeys(keys0, ids[..j])
  }

  /** The `j`th identifier is found after the current index in the keys built so far. */
  predicate ConflictAt(keys0: seq<Identifier>, current: nat, ids: seq<Identifier>, j: nat)
    requires j < |ids|
  {
    var f := FirstIndex(KeysBefore(keys0, ids, j), ids[j]);
    f.Some? && f.value > current
  }

  /** A conflict at a later identifier is a conflict of the rest once the first is handled. */
  lemma ConflictShift(keys0: seq<Identifier>, current: nat, ids: seq<Identifier>, j: nat)
    requires 0 < j < |ids|
    ensures ConflictAt(keys0, current, ids, j) <==> ConflictAt(Extend(keys0, ids[0]), current, ids[1..], j - 1)
  {
    assert ids[..j][0] == ids[0] && ids[..j][1..] == ids[1..][..j - 1];
    assert KeysBefore(keys0, ids, j) == KeysBefore(Extend(keys0, ids[0]), ids[1..], j - 1);
  }

  /** The `j`th identifier is the first one that conflicts. */
  predicate FirstConflict(keys0: seq<Identifier>, current: nat, ids: seq<Identifier>, j: nat)
    requires j < |ids|
  {
    ConflictAt(keys0, current, ids, j) && forall i | 0 <= i < j :: !ConflictAt(keys0, current, ids, i)
  }

  /** The first identifier conflicts when it is already in the table after the current index. */
  lemma ConflictFirst(keys0: seq<Identifier>, current: nat, ids: seq<Identifier>)
    requires ids != []
    ensures ConflictAt(keys0, current, ids, 0) <==>
      var f := FirstIndex(keys0, ids[0]); f.Some? && f.value > current
  {
    assert ids[..0] == [] && keys0 + [] == keys0;
    assert KeysBefore(keys0, ids, 0) == keys0;
  }

  /**
   * When the first identifier does not conflict, the conflicts of `ids` are
   * those of the rest, handled from the keys with the first one added.
   */
  lemma ConflictsAfterFirst(keys0: seq<Identifier>, current: nat, ids: seq<Identifier>)
    requires ids != [] && !ConflictAt(keys0, current, ids, 0)
    ensures (exists j | 0 <= j < |ids| :: ConflictAt(keys0, current, ids, j)) <==>
      (exists j | 0 <= j < |ids| - 1 :: ConflictAt(Extend(keys0, ids[0]), current, ids[1..], j))
    ensures forall j | 0 <= j < |ids| - 1 ::
      FirstConflict(Extend(keys0, ids[0]), current, ids[1..], j) ==> FirstConflict(keys0, current, ids, j + 1)
  {
    var keys1 := Extend(keys0, ids[0]);
    forall j | 0 < j < |ids|
      ensures ConflictAt(keys0, current, ids, j) <==> ConflictAt(keys1, current, ids[1..], j - 1)
    {
      ConflictShift(keys0, current, ids, j);
    }
    if exists j | 0 <= j < |ids| :: ConflictAt(keys0, current, ids, j) {
      var j :| 0 <= j < |ids| && ConflictAt(keys0, current, ids, j);
      assert ConflictAt(keys1, current, ids[1..], j - 1);
    }
    if exists j | 0 <= j < |ids| - 1 :: ConflictAt(keys1, current, ids[1..], j) {
      var j :| 0 <= j < |ids| - 1 && ConflictAt(keys1, current, ids[1..], j);
      assert ConflictAt(keys0, current, ids, j + 1);
    }
    forall j | 0 <= j < |ids| - 1 && FirstConflict(keys1, current, ids[1..], j)
      ensures FirstConflict(keys0, current, ids, j + 1)
    {
      forall i | 0 < i < j + 1 ensures !ConflictAt(keys0, current, ids, i) {
        assert !ConflictAt(keys1, current, ids[1..], i - 1);
      }
    }
  }

  /**
   * The insertion loop fails exactly when some declared identifier is found
   * after the current index in the keys built before it, and the failure
   * names the first such identifier.
   */
  lemma {:induction false} InsertNewFailsAtFirstConflict<V>(d: Steps<V>, current: nat, elements: seq<StepElement<V>>)
    requires d.Valid()
    decreases elements
    ensures var ids := Identifiers(elements);
      InsertNew(d, current, elements).Failure? <==> exists j | 0 <= j < |ids| :: ConflictAt(d.keys, current, ids, j)
    ensures var ids := Identifiers(elements); var r := InsertNew(d, current, elements);
      r.Failure? ==> exists j | 0 <= j < |ids| :: FirstConflict(d.keys, current, ids, j) && r.error == ids[j]
  {
    if elements != [] {
      var ids := Identifiers(elements);
      var r := InsertNew(d, current, elements);
      ConflictFirst(d.keys, current, ids);
      if ConflictAt(d.keys, current, ids, 0) {
        assert r == Failure(ids[0]);
        assert FirstConflict(d.keys, current, ids, 0);
      } else {
        var dd := InsertNewStep(d, current, elements);
        InsertNewFailsAtFirstConflict(dd, current, elements[1..]);
        ConflictsAfterFirst(d.keys, current, ids);
        if r.Failure? {
          var j :| 0 <= j < |ids| - 1 && FirstConflict(dd.keys, current, ids[1..], j) && r.error == ids[1..][j];
          assert FirstConflict(d.keys, current, ids, j + 1);
        }
      }
    }
  }

  /** The `j`th identifier repeats an earlier one that is not the first. */
  predicate RepeatsLaterStep(ids: seq<Identifier>, j: nat)
    requires j < |ids|
  {
    ids[j] in ids[..j] && ids[j] != ids[0]
  }

  /** The `j`th identifier is the first that repeats an earlier one other than the first. */
  predicate FirstRepeat(ids: seq<Identifier>, j: nat)
    requires j < |ids|
  {
    RepeatsLaterStep(ids, j) && forall i | 0 <= i < j :: !RepeatsLaterStep(ids, i)
  }

  /**
   * On an empty table with the default index 0, the first declared
   * identifier is appended at index 0, so a conflict is exactly a repeat of
   * some other identifier.
   */
  lemma EmptyTableConflict(ids: seq<Identifier>, j: nat)
    requires j < |ids|
    ensures ConflictAt([], 0, ids, j) <==> RepeatsLaterStep(ids, j)
  {
    var ks := KeysBefore([], ids, j);
    NewKeysMembers([], ids[..j]);
    assert [] + NewKeys([], ids[..j]) == NewKeys([], ids[..j]);
    assert ids[j] in ks <==> ids[j] in ids[..j];
    if j > 0 {
      assert ids[..j][0] == ids[0];
      assert ks[0] == ids[0];
    }
  }

  /**
   * On an empty table (the first configuration) the default index 0 is the
   * index the first appended step gets: the insertion loop fails exactly
   * when an identifier other than the first is declared twice, and names the
   * first such repeat; repeats of the first identifier are skipped.
   */
  lemma EmptyTableFailsIffLaterRepeat<V>(elements: seq<StepElement<V>>)
    ensures var ids := Identifiers(elements);
      InsertNew(EmptySteps(), 0, elements).Failure? <==> exists j | 0 <= j < |ids| :: RepeatsLaterStep(ids, j)
    ensures var ids := Identifiers(elements); var r := InsertNew(EmptySteps(), 0, elements);
      r.Failure? ==> exists j | 0 <= j < |ids| :: FirstRepeat(ids, j) && r.error == ids[j]
  {
    var empty: Steps<V> := EmptySteps();
    var ids := Identifiers(elements);
    InsertNewFailsAtFirstConflict(empty, 0, elements);
    EmptyTableConflicts(ids);
  }

  /** `EmptyTableConflict` for every index, and for the first conflict. */
  lemma EmptyTableConflicts(ids: seq<Identifier>)
    ensures forall j | 0 <= j < |ids| :: ConflictAt([], 0, ids, j) <==> RepeatsLaterStep(ids, j)
    ensures forall j | 0 <= j < |ids| :: FirstConflict([], 0, ids, j) <==> FirstRepeat(ids, j)
  {
    forall j | 0 <= j < |ids| ensures ConflictAt([], 0, ids, j) <==> RepeatsLaterStep(ids, j) {
      EmptyTableConflict(ids, j);
    }
  }

  /**
   * On an empty table a declaration whose only repeats are of its first
   * identifier is accepted, and the table lists each identifier once, in
   * declaration order.
   */
  lemma RepeatOfFirstStepAcceptedOnEmptyTable<V>(elements: seq<StepElement<V>>)
    requires forall j | 0 <= j < |Identifiers(elements)| ::
      Identifiers(elements)[j] in Identifiers(elements)[..j] ==> Identifiers(elements)[j] == Identifiers(elements)[0]
    ensures InsertNew(EmptySteps(), 0, elements).Success?
    ensures InsertNew(EmptySteps(), 0, elements).value.keys == NewKeys([], Identifiers(elements))
  {
    var empty: Steps<V> := EmptySteps();
    EmptyTableFailsIffLaterRepeat(elements);
    InsertNewAppendsInOrder(empty, 0, elements);
    assert empty.keys + NewKeys([], Identifiers(elements)) == NewKeys([], Identifiers(elements));
  }

  /**
   * On an empty table a repeat of any identifier other than the first fails,
   * naming that identifier or an earlier repeat.
   */
  lemma RepeatOfLaterStepRejectedOnEmptyTable<V>(elements: seq<StepElement<V>>, j: nat)
    requires j < |Identifiers(elements)| && RepeatsLaterStep(Identifiers(elements), j)
    ensures var r := InsertNew(EmptySteps(), 0, elements);
      r.Failure? && exists i | 0 <= i <= j :: RepeatsLaterStep(Identifiers(elements), i) && r.error == Identifiers(elements)[i]
  {
    EmptyTableFailsIffLaterRepeat(elements);
  }

  // ---------------------------------------------------------------------
  // Navigation and completion

  /**
   * The predefined step after the current one (`nextStep`'s target): none
   * when there is no current step, the current step is not predefined, or it
   * is the last one.
   */
  function NextKey(path: seq<Identifier>, keys: seq<Identifier>): (r: Option<Identifier>)
    ensures r.Some? ==> exists i | 0 <= i < |keys| - 1 :: CurrentStep(path, keys) == Some(keys[i]) && r.value == keys[i + 1]
    ensures r.None? ==>
      CurrentStep(path, keys).None? || CurrentStep(path, keys).value !in keys || CurrentStep(path, keys).value == keys[|keys| - 1]
  {
    match CurrentIndex(path, keys)
    case None => None
    case Some(i) => if i + 1 < |keys| then Some(keys[i + 1]) else None
  }

  /** In a duplicate-free table, `NextKey` is the key that follows the current step. */
  lemma NextKeyFollowsCurrent(path: seq<Identifier>, keys: seq<Identifier>, i: nat)
    requires Distinct(keys) && i < |keys| && CurrentStep(path, keys) == Some(keys[i])
    ensures NextKey(path, keys) == if i + 1 < |keys| then Some(keys[i + 1]) else None
  {
    FirstIndexUnique(keys, i);
  }

  /** The custom steps a path change leaves behind: in the old path, not in the new one. */
  ghost function DroppedCustom(oldPath: seq<Identifier>, newPath: seq<Identifier>): set<Identifier> {
    set s | s in oldPath && IsCustom(s) && s !in newPath
  }

  /** Appending a step (as `nextStep` does) leaves no custom step behind. */
  lemma AppendDropsNoCustom(p: seq<Identifier>, k: Identifier)
    ensures DroppedCustom(p, p + [k]) == {}
  {
    assert forall s | s in p :: s in p + [k];
  }

  /** `isCompleted?.wrappedValue = true` */
  function MarkCompleted(flag: Option<bool>): (r: Option<bool>)
    ensures r.None? <==> flag.None?
    ensures r.Some? ==> r.value
  {
    if flag.Some? then Some(true) else None
  }

  /** `updateIsCompleteBinding()`: raise the binding to true once no predefined step is left. */
  function CompleteWhenEmpty(flag: Option<bool>, empty: bool): (r: Option<bool>)
    ensures r.None? <==> flag.None?
    ensures r != flag ==> r == Some(true)
    ensures empty && flag.Some? ==> r == Some(true)
    ensures !empty ==> r == flag
  {
    if empty && !flag.GetOr(false) then MarkCompleted(flag) else flag
  }

  /** The empty table. */
  function EmptySteps<V>(): (d: Steps<V>)
    ensures d.Valid() && d.keys == []
  {
    OrderedDict([], map[])
  }

  // ---------------------------------------------------------------------
  // The manager

  class NavigationPathManager<V> {
    /** The runtime navigation path, predefined and custom steps alike. */
    var path: seq<Identifier>
    /** The completion binding, if one was given; its value is the wrapped value. */
    var isCompleted: Option<bool>
    var predefinedFlowSteps: Steps<V>
    var customSteps: map<Identifier, V>
    var pendingRemovals: set<Identifier>

    ghost predicate Valid()
      reads this
    {
      predefinedFlowSteps.Valid()
    }

    /** The predefined steps and the deferred removals, as one value. */
    function Table(): FlowTable<V>
      reads this
    {
      FlowTable(predefinedFlowSteps, pendingRemovals)
    }

    /** A manager with an empty path and no steps yet. */
    constructor (isCompleted: Option<bool>)
      ensures Valid()
      ensures this.isCompleted == isCompleted && path == []
      ensures predefinedFlowSteps == EmptySteps() && customSteps == map[] && pendingRemovals == {}
    {
      this.isCompleted := isCompleted;
      path := [];
      predefinedFlowSteps := EmptySteps();
      customSteps := map[];
      pendingRemovals := {};
    }

    /**
     * `init(isCompleted:predefinedFlowSteps:)`: an empty manager configured
     * with the declared elements.
     */
    static method Create(isCompleted: Option<bool>, elements: seq<StepElement<V>>)
      returns (m: NavigationPathManager<V>, outcome: Outcome<Identifier>)
      ensures fresh(m) && m.Valid() && m.path == [] && m.customSteps == map[]
      ensures var r := Reconcile(FlowTable(EmptySteps(), {}), [], elements);
        && (outcome.Fail? <==> r.Failure?)
        && (outcome.Pass? ==>
              && m.Table() == PendingRemovalPass(r.value, CurrentIndex([], r.value.predefined.keys))
              && m.isCompleted == CompleteWhenEmpty(isCompleted, m.predefinedFlowSteps.keys == []))
    {
      m := new NavigationPathManager(isCompleted);
      outcome := m.UpdateViews(elements);
    }

    /** `reapplyPendingRemovalsIfNeeded()` */
    method ReapplyPendingRemovalsIfNeeded()
      requires Valid()
      modifies this`predefinedFlowSteps, this`pendingRemovals
      ensures Valid()
      ensures Table() == PendingRemovalPass(old(Table()), CurrentIndex(path, old(predefinedFlowSteps.keys)))
    {
      var current := CurrentIndex(path, predefinedFlowSteps.keys);
      if current.Some? {
        RemovePendingAfter(current.value);
      }
    }

    /** The loop of `reapplyPendingRemovalsIfNeeded()`, for the current index `currentIndex`. */
    method RemovePendingAfter(currentIndex: nat)
      requires Valid() && currentIndex < |predefinedFlowSteps.keys|
      modifies this`predefinedFlowSteps, this`pendingRemovals
      ensures Valid()
      ensures Table() == PendingRemovalPass(old(Table()), Some(currentIndex))
    {
      ghost var t0 := Table();
      ghost var doomed: set<Identifier> := {};
      ReapplyStart(t0, currentIndex);
      var remaining := pendingRemovals;
      while remaining != {}
        invariant ReapplyProgress(t0, currentIndex, remaining, doomed, Table())
        decreases remaining
      {
        var id :| id in remaining;
        ReapplyAdvance(t0, currentIndex, remaining, doomed, Table(), id);
        var index := FirstIndex(predefinedFlowSteps.keys, id);
        if index.Some? && index.value > currentIndex {
          predefinedFlowSteps := predefinedFlowSteps.RemoveValue(id);
          pendingRemovals := pendingRemovals - {id};
          doomed := doomed + {id};
        }
        remaining := remaining - {id};
      }
      ReapplyDone(t0, currentIndex, doomed, Table());
    }

    /** `updateIsCompleteBinding()` */
    method UpdateIsCompleteBinding()
      modifies this`isCompleted
      ensures isCompleted == CompleteWhenEmpty(old(isCompleted), predefinedFlowSteps.keys == [])
    {
      if predefinedFlowSteps.keys == [] && !isCompleted.GetOr(false) {
        if isCompleted.Some? {
          isCompleted := Some(true);
        }
      }
    }

    /**
     * `updateViews(with:)`: reconciles a new declaration with the table
     * (see `Reconcile`), then runs the deferred-removal pass and the
     * completion update. A duplicate identifier stops it
     * (`preconditionFailure`), reported here as `Fail`.
     */
    method UpdateViews(elements: seq<StepElement<V>>) returns (outcome: Outcome<Identifier>)
      requires Valid()
      modifies this`predefinedFlowSteps, this`pendingRemovals, this`isCompleted
      ensures Valid()
      ensures outcome.Fail? <==> Reconcile(old(Table()), path, elements).Failure?
      ensures outcome.Fail? ==> outcome.error == Reconcile(old(Table()), path, elements).error
      ensures outcome.Fail? ==> isCompleted == old(isCompleted)
      ensures outcome.Pass? ==> var r := Reconcile(old(Table()), path, elements).value;
        Table() == PendingRemovalPass(r, CurrentIndex(path, r.predefined.keys))
      ensures outcome.Pass? ==> isCompleted == CompleteWhenEmpty(old(isCompleted), predefinedFlowSteps.keys == [])
    {
      outcome := ApplyDeclaration(elements);
      if outcome.Fail? {
        return;
      }
      ReapplyPendingRemovalsIfNeeded();
      UpdateIsCompleteBinding();
    }

    /** The two loops of `updateViews`, which together compute `Reconcile`. */
    method ApplyDeclaration(elements: seq<StepElement<V>>) returns (outcome: Outcome<Identifier>)
      requires Valid()
      modifies this`predefinedFlowSteps, this`pendingRemovals
      ensures Valid()
      ensures var r := Reconcile(old(Table()), path, elements);
        && (outcome.Fail? <==> r.Failure?)
        && (outcome.Fail? ==> outcome.error == r.error)
        && (outcome.Pass? ==> Table() == r.value)
    {
      var currentStepIndex := CurrentIndex(path, predefinedFlowSteps.keys).GetOr(0);
      var newIdentifiers := Identifiers(elements);
      DropStepsAfter(currentStepIndex, newIdentifiers);
      outcome := InsertDeclared(currentStepIndex, elements);
    }

    /**
     * The first loop of `updateViews`: keys after the current index are
     * deleted; kept keys missing from `newIdentifiers` become pending removals.
     */
    method DropStepsAfter(currentStepIndex: nat, newIdentifiers: seq<Identifier>)
      requires Valid()
      modifies this`predefinedFlowSteps, this`pendingRemovals
      ensures Valid()
      ensures Table() == DropAfter(old(Table()), currentStepIndex, newIdentifiers)
    {
      var existingKeys := predefinedFlowSteps.keys;
      ghost var t0 := Table();
      for index := 0 to |existingKeys|
        invariant Table() == DropLoop(t0, currentStepIndex, newIdentifiers, index)
      {
        var key := existingKeys[index];
        if index > currentStepIndex {
          predefinedFlowSteps := predefinedFlowSteps.RemoveValue(key);
        } else if key !in newIdentifiers {
          pendingRemovals := pendingRemovals + {key};
        }
      }
      DropLoopResult(t0, currentStepIndex, newIdentifiers);
    }

    /**
     * The second loop of `updateViews`: each declared identifier is appended
     * with its view unless it is already present; one already present after
     * the current index is a duplicate.
     */
    method InsertDeclared(currentStepIndex: nat, elements: seq<StepElement<V>>) returns (outcome: Outcome<Identifier>)
      requires Valid()
      modifies this`predefinedFlowSteps
      ensures Valid()
      ensures var r := InsertInto(old(Table()), currentStepIndex, elements);
        && (outcome.Fail? <==> r.Failure?)
        && (outcome.Fail? ==> outcome.error == r.error)
        && (outcome.Pass? ==> Table() == r.value)
    {
      ghost var d0 := predefinedFlowSteps;
      assert elements[0..] == elements;
      for i := 0 to |elements|
        invariant predefinedFlowSteps.Valid()
        invariant InsertNew(predefinedFlowSteps, currentStepIndex, elements[i..]) == InsertNew(d0, currentStepIndex, elements)
      {
        assert elements[i..][0] == elements[i] && elements[i..][1..] == elements[i + 1..];
        var identifier := FromElement(elements[i]);
        var existingIndex := FirstIndex(predefinedFlowSteps.keys, identifier);
        if existingIndex.Some? {
          if existingIndex.value > currentStepIndex {
            outcome := Fail(identifier);
            return;
          }
        } else {
          predefinedFlowSteps := predefinedFlowSteps.Assign(identifier, elements[i].view);
        }
      }
      assert elements[|elements|..] == [];
      outcome := Pass;
    }

    /**
     * Assigning `path`, with its `didSet` observer: when the new value differs,
     * the custom steps left behind lose their views and the deferred-removal
     * pass runs for the new position.
     */
    method SetPath(newPath: seq<Identifier>)
      requires Valid()
      modifies this`path, this`customSteps, this`predefinedFlowSteps, this`pendingRemovals
      ensures Valid()
      ensures path == newPath
      ensures old(path) == newPath ==> customSteps == old(customSteps) && Table() == old(Table())
      ensures old(path) != newPath ==>
        && customSteps == old(customSteps) - DroppedCustom(old(path), newPath)
        && Table() == PendingRemovalPass(old(Table()), CurrentIndex(newPath, old(predefinedFlowSteps.keys)))
    {
      var oldValue := path;
      path := newPath;
      if oldValue == newPath {
        return;
      }
      for i := 0 to |oldValue|
        invariant customSteps == old(customSteps) - DroppedCustom(oldValue[..i], newPath)
        invariant path == newPath && Table() == old(Table())
      {
        assert oldValue[..i + 1] == oldValue[..i] + [oldValue[i]];
        var step := oldValue[i];
        if IsCustom(step) && step !in newPath {
          customSteps := customSteps - {step};
        }
      }
      assert oldValue[..|oldValue|] == oldValue;
      ReapplyPendingRemovalsIfNeeded();
    }

    /**
     * `nextStep()`: pushes the predefined step after the current one, or,
     * when there is none, marks the flow completed and leaves the path alone.
     */
    method NextStep()
      requires Valid()
      modifies this`path, this`customSteps, this`predefinedFlowSteps, this`pendingRemovals, this`isCompleted
      ensures Valid()
      ensures var next := NextKey(old(path), old(predefinedFlowSteps.keys));
        && (next.None? ==>
              && path == old(path) && customSteps == old(customSteps) && Table() == old(Table())
              && isCompleted == MarkCompleted(old(isCompleted)))
        && (next.Some? ==>
              && path == old(path) + [next.value]
              && customSteps == old(customSteps) && isCompleted == old(isCompleted)
              && Table() == PendingRemovalPass(old(Table()), CurrentIndex(path, old(predefinedFlowSteps.keys))))
    {
      var next := NextKey(path, predefinedFlowSteps.keys);
      if next.None? {
        isCompleted := MarkCompleted(isCompleted);
        return;
      }
      PushStep(next.value);
    }

    /** `path.append(step)`: no custom step is left behind, so only the removal pass runs. */
    method PushStep(step: Identifier)
      requires Valid()
      modifies this`path, this`customSteps, this`predefinedFlowSteps, this`pendingRemovals
      ensures Valid()
      ensures path == old(path) + [step] && customSteps == old(customSteps)
      ensures Table() == PendingRemovalPass(old(Table()), CurrentIndex(path, old(predefinedFlowSteps.keys)))
    {
      var newPath := path + [step];
      AppendDropsNoCustom(path, step);
      assert |newPath| == |path| + 1;
      SetPath(newPath);
      assert customSteps == old(customSteps) - {};
    }

    /** `firstStepFlowView`: the view of the first predefined step, if any. */
    function FirstStepFlowView(): (r: Option<V>)
      reads this
      requires Valid()
      ensures r.Some? <==> predefinedFlowSteps.keys != []
      ensures r.Some? ==> r == predefinedFlowSteps.Get(predefinedFlowSteps.keys[0])
      ensures r.Some? ==> r.value == predefinedFlowSteps.values[predefinedFlowSteps.keys[0]]
    {
      match predefinedFlowSteps.FirstKey()
      case None => None
      case Some(k) => predefinedFlowSteps.Get(k)
    }

    /**
     * `view(for:)`: a custom identifier is looked up among the custom steps
     * only, any other among the predefined steps only; `None` stands for the
     * empty view.
     */
    function ViewFor(id: Identifier): (r: Option<V>)
      reads this
      requires Valid()
      ensures IsCustom(id) ==> (r.Some? <==> id in customSteps) && (r.Some? ==> r.value == customSteps[id])
      ensures !IsCustom(id) ==> (r.Some? <==> id in predefinedFlowSteps.keys)
      ensures !IsCustom(id) && r.Some? ==> r.value == predefinedFlowSteps.values[id]
    {
      if IsCustom(id) then
        if id in customSteps then Some(customSteps[id]) else None
      else predefinedFlowSteps.Get(id)
    }
  }
}
