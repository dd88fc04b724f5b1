/**
 The listener lifecycle of `useClickAway`: each run of the effect registers a
 fresh `handleClickAway` closure for `mousedown` on the document, and the
 cleanup it returns removes that same closure. The host framework decides
 when the effect and its cleanup run; here that is the sequence of `Step`s.
 */
module Listeners {
  import opened Wrappers
  import opened DomTree
  import opened ClickAway

  /** One `handleClickAway` closure: its identity (fresh for every effect run)
      and what it captured, the callback and the memoized exclusion list. */
  datatype Handler = Handler(id: nat, callback: nat, exclude: Option<seq<string>>)

  /** This instance's view of the document's `mousedown` listeners, and the
      cleanup of the effect run that is currently in place. */
  datatype Effect = Effect(listeners: seq<Handler>, cleanup: Option<Handler>, nextId: nat)

  /** What the framework does to one instance: run the effect after a commit in
      which its dependencies changed (running the pending cleanup first), or
      tear the instance down. */
  datatype Step = Commit(callback: nat, exclude: Option<seq<string>>) | Unmount

  // ---------------------------------------------------------------------
  // The document's listener list (section 2.7 of the DOM Standard, for one
  // event type and capture unset).

  /** "Add an event listener": append, unless an equal listener is already there. */
  function AddEventListener(list: seq<Handler>, h: Handler): (r: seq<Handler>)
    ensures forall x :: x in r <==> x in list || x == h
    ensures h in list ==> r == list
    ensures h !in list ==> |r| == |list| + 1 && r[..|list|] == list
  {
    if h in list then list else list + [h]
  }

  /** Position of the first listener equal to `h`. */
  function IndexOf(list: seq<Handler>, h: Handler): (i: nat)
    requires h in list
    ensures i < |list| && list[i] == h && h !in list[..i]
  {
    if list[0] == h then 0
    else
      var i := IndexOf(list[1..], h);
      assert list[..i + 1] == [list[0]] + list[1..][..i];
      i + 1
  }

  /** "Remove an event listener": drop the equal listener, if any, keeping the
      others in order. */
  function RemoveEventListener(list: seq<Handler>, h: Handler): (r: seq<Handler>)
    ensures h !in list ==> r == list
    ensures h in list ==> exists i :: 0 <= i < |list| && list[i] == h && h !in list[..i] && r == list[..i] + list[i + 1..]
  {
    if h in list then
      var i := IndexOf(list, h);
      assert list == list[..i] + [h] + list[i + 1..];
      list[..i] + list[i + 1..]
    else
      list
  }

  lemma RemoveLast(list: seq<Handler>, h: Handler)
    requires h !in list
    ensures RemoveEventListener(list + [h], h) == list
  {
    var added := list + [h];
    assert added[|list|] == h;
    assert added[..|list|] == list;
  }

  /** Removing a listener that was just added restores the list. */
  lemma RemoveUndoesAdd(list: seq<Handler>, h: Handler)
    requires h !in list
    ensures RemoveEventListener(AddEventListener(list, h), h) == list
  {
    RemoveLast(list, h);
  }

  // ---------------------------------------------------------------------
  // Effect and cleanup.

  /** At most one live listener, and it is the one the pending cleanup removes. */
  predicate Inv(s: Effect) {
    && (s.cleanup.None? ==> s.listeners == [])
    && (s.cleanup.Some? ==> s.listeners == [s.cleanup.value])
    && forall h :: h in s.listeners ==> h.id < s.nextId
  }

  /** Effect body: `document.addEventListener("mousedown", handleClickAway)` with
      a fresh closure, returning the cleanup that removes it. */
  function Activate(s: Effect, callback: nat, exclude: Option<seq<string>>): (r: Effect)
    requires Inv(s) && s.cleanup.None?
    ensures Inv(r)
    ensures r.cleanup.Some? && r.cleanup.value.callback == callback && r.cleanup.value.exclude == exclude
    ensures r.cleanup.value !in s.listeners
    ensures |r.listeners| == |s.listeners| + 1
  {
    var h := Handler(s.nextId, callback, exclude);
    Effect(AddEventListener(s.listeners, h), Some(h), s.nextId + 1)
  }

  /** Cleanup: `document.removeEventListener("mousedown", handleClickAway)` for
      the closure the matching effect run added. */
  function Deactivate(s: Effect): (r: Effect)
    requires Inv(s) && s.cleanup.Some?
    ensures Inv(r) && r.cleanup.None?
    ensures s.cleanup.value !in r.listeners
    ensures |r.listeners| == |s.listeners| - 1
  {
    Effect(RemoveEventListener(s.listeners, s.cleanup.value), None, s.nextId)
  }

  /** Each effect run adds one listener and its own cleanup takes exactly that one away. */
  lemma DeactivateUndoesActivate(s: Effect, callback: nat, exclude: Option<seq<string>>)
    requires Inv(s) && s.cleanup.None?
    ensures Deactivate(Activate(s, callback, exclude)).listeners == s.listeners
  {
    RemoveUndoesAdd(s.listeners, Handler(s.nextId, callback, exclude));
  }

  function Apply(s: Effect, step: Step): (r: Effect)
    requires Inv(s)
    ensures Inv(r)
    ensures step.Commit? ==> && r.cleanup.Some?
                             && r.cleanup.value.callback == step.callback
                             && r.cleanup.value.exclude == step.exclude
                             && (s.cleanup.Some? ==> s.cleanup.value !in r.listeners)
    ensures step.Unmount? ==> r.cleanup.None? && r.listeners == []
  {
    var idle := if s.cleanup.Some? then Deactivate(s) else s;
    match step
    case Commit(callback, exclude) => Activate(idle, callback, exclude)
    case Unmount => idle
  }

  function Run(s: Effect, steps: seq<Step>): (r: Effect)
    requires Inv(s)
    ensures Inv(r)
    ensures |steps| > 0 && steps[|steps| - 1].Commit? ==>
              && r.cleanup.Some?
              && r.cleanup.value.callback == steps[|steps| - 1].callback
              && r.cleanup.value.exclude == steps[|steps| - 1].exclude
    ensures |steps| > 0 && steps[|steps| - 1].Unmount? ==> r.cleanup.None? && r.listeners == []
    decreases |steps|
  {
    if |steps| == 0 then s else Run(Apply(s, steps[0]), steps[1..])
  }

  /** Over any lifetime: never more than one live listener; exactly one after
      a commit; none after the instance is torn down. */
  lemma {:induction false} RunKeepsAtMostOneListener(s: Effect, steps: seq<Step>)
    requires Inv(s)
    ensures |Run(s, steps).listeners| <= 1
    ensures |steps| > 0 && steps[|steps| - 1].Commit? ==> |Run(s, steps).listeners| == 1
    ensures |steps| > 0 && steps[|steps| - 1].Unmount? ==> Run(s, steps).listeners == []
    decreases |steps|
  {
    if |steps| > 0 {
      RunKeepsAtMostOneListener(Apply(s, steps[0]), steps[1..]);
      if |steps| == 1 {
        assert Run(s, steps) == Run(Apply(s, steps[0]), []);
      }
    }
  }

  // ---------------------------------------------------------------------
  // Dispatch of one `mousedown`.

  /** The callbacks of the listeners that `fires` holds of, in listener order. */
  function FiringCallbacks(listeners: seq<Handler>, fires: Handler -> bool): (calls: seq<nat>)
    ensures |calls| <= |listeners|
    ensures forall c :: c in calls ==> exists h :: h in listeners && h.callback == c && fires(h)
    ensures forall h :: h in listeners && fires(h) ==> h.callback in calls
  {
    if |listeners| == 0 then []
    else
      var rest := FiringCallbacks(listeners[1..], fires);
      if fires(listeners[0]) then [listeners[0].callback] + rest else rest
  }

  /** `idx` lists, in increasing order, exactly the positions of the
      listeners that `fires` holds of. */
  ghost predicate FiringPositions(idx: seq<nat>, listeners: seq<Handler>, fires: Handler -> bool) {
    && (forall k :: 0 <= k < |idx| ==> idx[k] < |listeners|)
    && Increasing(idx)
    && (forall i :: 0 <= i < |listeners| ==> (fires(listeners[i]) <==> i in idx))
  }

  /** `calls` holds the callbacks of the listeners at positions `idx`, in that order. */
  ghost predicate CallbacksAt(calls: seq<nat>, idx: seq<nat>, listeners: seq<Handler>) {
    && |idx| == |calls|
    && forall k :: 0 <= k < |idx| ==> idx[k] < |listeners| && calls[k] == listeners[idx[k]].callback
  }

  /** Every position moved one further along. */
  function Shift(idx: seq<nat>): (r: seq<nat>)
    ensures |r| == |idx| && forall k :: 0 <= k < |idx| ==> r[k] == idx[k] + 1
  {
    if |idx| == 0 then [] else [idx[0] + 1] + Shift(idx[1..])
  }

  lemma ShiftMembership(idx: seq<nat>, i: nat)
    ensures i in Shift(idx) <==> i >= 1 && i - 1 in idx
  {
    var r := Shift(idx);
    if i in r {
      var k :| 0 <= k < |r| && r[k] == i;
      assert idx[k] == i - 1;
    }
    if i >= 1 && i - 1 in idx {
      var k :| 0 <= k < |idx| && idx[k] == i - 1;
      assert r[k] == i;
    }
  }

  ghost predicate Increasing(idx: seq<nat>) {
    forall k, l :: 0 <= k < l < |idx| ==> idx[k] < idx[l]
  }

  /** Positions in the tail of a list, read as positions in the whole list. */
  lemma ShiftPositions(listeners: seq<Handler>, fires: Handler -> bool, idx: seq<nat>, rest: seq<nat>)
    requires |listeners| > 0
    requires FiringPositions(idx, listeners[1..], fires) && CallbacksAt(rest, idx, listeners[1..])
    ensures forall k :: 0 <= k < |Shift(idx)| ==> 1 <= Shift(idx)[k] < |listeners|
    ensures Increasing(Shift(idx))
    ensures forall i :: 1 <= i < |listeners| ==> (fires(listeners[i]) <==> i in Shift(idx))
    ensures CallbacksAt(rest, Shift(idx), listeners)
  {
    var tail := listeners[1..];
    var shifted := Shift(idx);
    forall i | 1 <= i < |listeners| ensures fires(listeners[i]) <==> i in shifted {
      ShiftMembership(idx, i);
      assert listeners[i] == tail[i - 1];
    }
    forall k | 0 <= k < |shifted| ensures listeners[shifted[k]] == tail[idx[k]] { }
  }

  /** A firing first listener goes in front of the tail's positions. */
  lemma PrependFiring(listeners: seq<Handler>, fires: Handler -> bool, shifted: seq<nat>, rest: seq<nat>)
    requires |listeners| > 0 && fires(listeners[0])
    requires forall k :: 0 <= k < |shifted| ==> 1 <= shifted[k] < |listeners|
    requires Increasing(shifted)
    requires forall i :: 1 <= i < |listeners| ==> (fires(listeners[i]) <==> i in shifted)
    requires CallbacksAt(rest, shifted, listeners)
    ensures FiringPositions([0] + shifted, listeners, fires)
    ensures CallbacksAt([listeners[0].callback] + rest, [0] + shifted, listeners)
  {
    var idx := [0] + shifted;
    forall i | 0 <= i < |listeners| ensures fires(listeners[i]) <==> i in idx {
      assert i in idx <==> i == 0 || i in shifted;
    }
    forall k, l | 0 <= k < l < |idx| ensures idx[k] < idx[l] {
      if k > 0 { assert idx[k] == shifted[k - 1] && idx[l] == shifted[l - 1]; }
      else { assert idx[l] == shifted[l - 1]; }
    }
  }

  /** The positions of the listeners the filter calls: each listener that
      `fires` holds of once, in listener order, and no other. */
  lemma {:induction false} FiringCallbacksPositions(listeners: seq<Handler>, fires: Handler -> bool) returns (idx: seq<nat>)
    ensures FiringPositions(idx, listeners, fires)
    ensures CallbacksAt(FiringCallbacks(listeners, fires), idx, listeners)
    decreases |listeners|
  {
    if |listeners| == 0 {
      idx := [];
    } else {
      var rest := FiringCallbacks(listeners[1..], fires);
      var idx' := FiringCallbacksPositions(listeners[1..], fires);
      ShiftPositions(listeners, fires, idx', rest);
      var shifted := Shift(idx');
      if fires(listeners[0]) {
        PrependFiring(listeners, fires, shifted, rest);
        idx := [0] + shifted;
      } else {
        assert 0 !in shifted;
        idx := shifted;
      }
    }
  }

  /** The filter calls each listener that `fires` holds of once, in listener
      order, and no other. */
  lemma FiringCallbacksInOrder(listeners: seq<Handler>, fires: Handler -> bool)
    ensures exists idx :: FiringPositions(idx, listeners, fires) && CallbacksAt(FiringCallbacks(listeners, fires), idx, listeners)
  {
    var idx := FiringCallbacksPositions(listeners, fires);
    assert FiringPositions(idx, listeners, fires) && CallbacksAt(FiringCallbacks(listeners, fires), idx, listeners);
  }

  /** The `mousedown` handlers' test, as a test on listeners. */
  function Handles(doc: Document, root: Option<NodeId>, target: NodeId): (fires: Handler -> bool)
    requires doc.Valid() && target in doc.nodes
    ensures forall h: Handler :: ValidExclusions(h.exclude) ==> (fires(h) <==> ShouldFire(doc, root, h.exclude, target))
  {
    (h: Handler) => ValidExclusions(h.exclude) && ShouldFire(doc, root, h.exclude, target)
  }

  /** The callbacks one `mousedown` on `target` invokes: those of the
      listeners whose test passes, in listener order. `root` is what
      `clickAwayRef.current` holds when the event arrives. */
  function Dispatch(listeners: seq<Handler>, doc: Document, root: Option<NodeId>, target: NodeId): (calls: seq<nat>)
    requires doc.Valid() && target in doc.nodes
    requires forall h :: h in listeners ==> ValidExclusions(h.exclude)
    ensures |calls| <= |listeners|
    ensures forall c :: c in calls ==>
              exists h :: h in listeners && h.callback == c && ShouldFire(doc, root, h.exclude, target)
    ensures forall h :: h in listeners && ShouldFire(doc, root, h.exclude, target) ==> h.callback in calls
  {
    FiringCallbacks(listeners, Handles(doc, root, target))
  }

  /** A press calls the callback of each listener whose test passes, once
      each, in listener order, and no other callback. */
  lemma DispatchCallsFiringListenersInOrder(listeners: seq<Handler>, doc: Document, root: Option<NodeId>, target: NodeId)
    requires doc.Valid() && target in doc.nodes
    requires forall h :: h in listeners ==> ValidExclusions(h.exclude)
    ensures exists idx :: && FiringPositions(idx, listeners, Handles(doc, root, target))
                          && CallbacksAt(Dispatch(listeners, doc, root, target), idx, listeners)
  {
    FiringCallbacksInOrder(listeners, Handles(doc, root, target));
  }

  /** One press invokes the callback at most once, and exactly once when the
      effect is in place and its handler's test passes. */
  lemma AtMostOneCallPerEvent(s: Effect, doc: Document, root: Option<NodeId>, target: NodeId)
    requires Inv(s) && doc.Valid() && target in doc.nodes
    requires forall h :: h in s.listeners ==> ValidExclusions(h.exclude)
    ensures |Dispatch(s.listeners, doc, root, target)| <= 1
    ensures Dispatch(s.listeners, doc, root, target) ==
            if s.cleanup.Some? && ShouldFire(doc, root, s.cleanup.value.exclude, target)
            then [s.cleanup.value.callback] else []
  {
  }

  /** After teardown, no press, however made, invokes the callback. */
  lemma NothingFiresAfterUnmount(s: Effect, doc: Document, root: Option<NodeId>, target: NodeId)
    requires Inv(s) && doc.Valid() && target in doc.nodes
    ensures Dispatch(Apply(s, Unmount).listeners, doc, root, target) == []
  {
  }
}
