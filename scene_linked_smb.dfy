/**
 * SceneLinkedSMB: an animator state behaviour that turns the engine's three
 * callbacks (OnStateEnter, OnStateUpdate, OnStateExit) into a finer set of
 * hooks (PostEnter, NoTransitionUpdate, PreExit, ...). Two flags remember
 * whether the first frame after entering, and the last frame before leaving,
 * have been seen.
 *
 * The animator queries become a `Frame` of four booleans. Each hook call
 * becomes a `Call` value. An out-parameter returns the calls in the order
 * they are made.
 */
module SceneLinked {
  import opened Options

  /** The overridable hooks, named after their `OnSL...` methods. */
  datatype Hook =
    | StateEnter
    | TransitionToStateUpdate
    | StateNoTransitionUpdate
    | StatePreExit
    | StatePostEnter
    | TransitionFromStateUpdate
    | StateExit

  /**
   * One invocation of a hook: the three-argument overload, or the
   * four-argument one that also receives the controller playable.
   */
  datatype Call = Call(hook: Hook, withController: bool)

  /** What the animator reports for this layer during one OnStateUpdate. */
  datatype Frame = Frame(
    activeSelf: bool,     // the animator's game object is active
    inTransition: bool,   // the layer is in a transition
    nextIsThis: bool,     // the transition's next state is this state
    currentIsThis: bool)  // the layer's current state is this state

  /** `m_FirstFrameHappened` and `m_LastFrameHappened`. */
  datatype Flags = Flags(firstFrameHappened: bool, lastFrameHappened: bool)

  /** The three engine callbacks, as events of a trace. */
  datatype Event = Enter | Update(frame: Frame) | Exit

  // ---------------------------------------------------------------------------
  // Hook calls
  // ---------------------------------------------------------------------------

  /** Each hook is fired as its three-argument overload, then its four-argument one. */
  function Fire(h: Hook): seq<Call>
  {
    [Call(h, false), Call(h, true)]
  }

  /** The calls made when the hooks `hs` fire in order. */
  function Expand(hs: seq<Hook>): (calls: seq<Call>)
    ensures |calls| == 2 * |hs|
  {
    if hs == [] then [] else Fire(hs[0]) + Expand(hs[1..])
  }

  /** Every fired hook becomes two adjacent calls: the three-argument overload first. */
  lemma {:induction false} ExpandPairs(hs: seq<Hook>)
    ensures forall k :: 0 <= k < |hs| ==>
      Expand(hs)[2 * k] == Call(hs[k], false) && Expand(hs)[2 * k + 1] == Call(hs[k], true)
  {
    if hs != [] {
      ExpandPairs(hs[1..]);
      forall k | 0 < k < |hs|
        ensures Expand(hs)[2 * k] == Expand(hs[1..])[2 * (k - 1)]
        ensures Expand(hs)[2 * k + 1] == Expand(hs[1..])[2 * (k - 1) + 1]
      {
      }
    }
  }

  lemma {:induction false} ExpandAppend(hs: seq<Hook>, ks: seq<Hook>)
    ensures Expand(hs + ks) == Expand(hs) + Expand(ks)
  {
    if hs == [] {
      assert hs + ks == ks;
    } else {
      assert (hs + ks)[1..] == hs[1..] + ks;
      ExpandAppend(hs[1..], ks);
    }
  }

  lemma ExpandSnoc(hs: seq<Hook>, h: Hook)
    ensures Expand(hs + [h]) == Expand(hs) + Fire(h)
  {
    ExpandAppend(hs, [h]);
    assert Expand([h]) == Fire(h) + Expand([]);
  }

  // ---------------------------------------------------------------------------
  // OnStateUpdate, specified hook by hook
  // ---------------------------------------------------------------------------

  /** The order in which OnStateUpdate considers its hooks. */
  const UpdateOrder: seq<Hook> :=
    [TransitionToStateUpdate, StateNoTransitionUpdate, StatePreExit, StatePostEnter, TransitionFromStateUpdate]

  /**
   * Whether hook `h` fires in an update that starts from flags `f`. Each
   * condition reads the flags as they were when the update began. The updates
   * that happen during the update (PreExit sets the last-frame flag, PostEnter
   * the first-frame flag) are read by no later condition.
   */
  predicate Fires(h: Hook, f: Flags, fr: Frame)
  {
    && fr.activeSelf
    && match h
       case TransitionToStateUpdate => fr.inTransition && fr.nextIsThis
       case StateNoTransitionUpdate => !fr.inTransition && f.firstFrameHappened
       case StatePreExit => fr.inTransition && !f.lastFrameHappened && f.firstFrameHappened
       case StatePostEnter => !fr.inTransition && !f.firstFrameHappened
       case TransitionFromStateUpdate => fr.inTransition && fr.currentIsThis
       case _ => false
  }

  /** `[h]` if `h` fires, else nothing. */
  function When(h: Hook, f: Flags, fr: Frame): seq<Hook>
  {
    if Fires(h, f, fr) then [h] else []
  }

  /** The hooks one update fires, in the order OnStateUpdate considers them. */
  function Fired(f: Flags, fr: Frame): seq<Hook>
  {
    When(TransitionToStateUpdate, f, fr) + When(StateNoTransitionUpdate, f, fr) +
    When(StatePreExit, f, fr) + When(StatePostEnter, f, fr) + When(TransitionFromStateUpdate, f, fr)
  }

  /** The flags after an update: only PreExit and PostEnter set a flag, and only to true. */
  function UpdatedFlags(f: Flags, fr: Frame): (f': Flags)
    ensures f'.lastFrameHappened == (f.lastFrameHappened || Fires(StatePreExit, f, fr))
    ensures f'.firstFrameHappened == (f.firstFrameHappened || Fires(StatePostEnter, f, fr))
  {
    Flags(f.firstFrameHappened || (fr.activeSelf && !fr.inTransition),
          f.lastFrameHappened || Fires(StatePreExit, f, fr))
  }

  /** The position of a hook in UpdateOrder. */
  function Rank(h: Hook): (r: int)
    ensures 0 <= r < |UpdateOrder| ==> UpdateOrder[r] == h
    ensures h in UpdateOrder <==> 0 <= r < |UpdateOrder|
  {
    match h
    case TransitionToStateUpdate => 0
    case StateNoTransitionUpdate => 1
    case StatePreExit => 2
    case StatePostEnter => 3
    case TransitionFromStateUpdate => 4
    case _ => -1
  }

  /**
   * Within one update the hooks fire in the order TransitionToStateUpdate,
   * NoTransitionUpdate, PreExit, PostEnter, TransitionFromStateUpdate, each at
   * most once.
   */
  lemma FiredInOrder(f: Flags, fr: Frame)
    ensures forall i, j :: 0 <= i < j < |Fired(f, fr)| ==> Rank(Fired(f, fr)[i]) < Rank(Fired(f, fr)[j])
    ensures forall h :: h in Fired(f, fr) ==> h in UpdateOrder
  {
  }

  /** A hook fires in an update exactly when it is one of the five update hooks and its condition holds. */
  lemma FiredIffFires(f: Flags, fr: Frame, h: Hook)
    ensures h in Fired(f, fr) <==> h in UpdateOrder && Fires(h, f, fr)
  {
  }

  /** An update fires each of its hooks once if its condition holds and not at all otherwise. */
  lemma FiredOnce(f: Flags, fr: Frame, h: Hook)
    requires h != StateEnter && h != StateExit
    ensures multiset(Fired(f, fr))[h] == if Fires(h, f, fr) then 1 else 0
  {
    var w1, w2, w3 := When(TransitionToStateUpdate, f, fr), When(StateNoTransitionUpdate, f, fr), When(StatePreExit, f, fr);
    var w4, w5 := When(StatePostEnter, f, fr), When(TransitionFromStateUpdate, f, fr);
    assert multiset(Fired(f, fr))[h] == multiset(w1)[h] + multiset(w2)[h] + multiset(w3)[h] + multiset(w4)[h] + multiset(w5)[h];
    WhenCount(TransitionToStateUpdate, h, f, fr);
    WhenCount(StateNoTransitionUpdate, h, f, fr);
    WhenCount(StatePreExit, h, f, fr);
    WhenCount(StatePostEnter, h, f, fr);
    WhenCount(TransitionFromStateUpdate, h, f, fr);
  }

  lemma WhenCount(k: Hook, h: Hook, f: Flags, fr: Frame)
    ensures multiset(When(k, f, fr))[h] == if k == h && Fires(k, f, fr) then 1 else 0
  {
  }

  /** An inactive game object makes OnStateUpdate fire nothing and change no flag. */
  lemma InactiveUpdateIsInert(f: Flags, fr: Frame)
    requires !fr.activeSelf
    ensures Fired(f, fr) == [] && UpdatedFlags(f, fr) == f
  {
  }

  /**
   * PostEnter fires exactly when the layer is not in transition and the first
   * frame has not happened, and it leaves the first-frame flag set.
   * NoTransitionUpdate needs the flag already set, so the two never fire in
   * the same update.
   */
  lemma PostEnterFiresOncePerEntry(f: Flags, fr: Frame)
    ensures StatePostEnter in Fired(f, fr) <==> fr.activeSelf && !fr.inTransition && !f.firstFrameHappened
    ensures StatePostEnter in Fired(f, fr) ==> UpdatedFlags(f, fr).firstFrameHappened
    ensures StateNoTransitionUpdate in Fired(f, fr) <==>
      fr.activeSelf && !fr.inTransition && f.firstFrameHappened
    ensures !(StatePostEnter in Fired(f, fr) && StateNoTransitionUpdate in Fired(f, fr))
  {
  }

  /**
   * PreExit fires exactly when the layer is in transition, the first frame has
   * happened and the last one has not, and it leaves the last-frame flag set.
   */
  lemma PreExitFiresOncePerExit(f: Flags, fr: Frame)
    ensures StatePreExit in Fired(f, fr) <==>
      fr.activeSelf && fr.inTransition && f.firstFrameHappened && !f.lastFrameHappened
    ensures StatePreExit in Fired(f, fr) ==> UpdatedFlags(f, fr).lastFrameHappened
  {
  }

  /** During an update the flags only move from false to true. */
  lemma UpdateFlagsOnlyRise(f: Flags, fr: Frame)
    ensures f.firstFrameHappened ==> UpdatedFlags(f, fr).firstFrameHappened
    ensures f.lastFrameHappened ==> UpdatedFlags(f, fr).lastFrameHappened
  {
  }

  // ---------------------------------------------------------------------------
  // Traces of callbacks
  // ---------------------------------------------------------------------------

  /** One engine callback: the new flags and the hooks it fires. */
  function Step(f: Flags, e: Event): (Flags, seq<Hook>)
  {
    match e
    case Enter => (f.(firstFrameHappened := false), [StateEnter])
    case Update(fr) => (UpdatedFlags(f, fr), Fired(f, fr))
    case Exit => (f.(lastFrameHappened := false), [StateExit])
  }

  /** The callbacks `events` in order: the final flags and every hook fired. */
  function Run(f: Flags, events: seq<Event>): (Flags, seq<Hook>)
    decreases |events|
  {
    if events == [] then (f, [])
    else
      var (f', hooks) := Step(f, events[0]);
      var (g, rest) := Run(f', events[1..]);
      (g, hooks + rest)
  }

  lemma RunCons(f: Flags, events: seq<Event>)
    requires events != []
    ensures Run(f, events).0 == Run(Step(f, events[0]).0, events[1..]).0
    ensures Run(f, events).1 == Step(f, events[0]).1 + Run(Step(f, events[0]).0, events[1..]).1
  {
  }

  function B2I(b: bool): nat { if b then 1 else 0 }

  /** A callback other than OnStateExit fires PreExit only by setting the last-frame flag. */
  lemma StepPreExit(f: Flags, e: Event)
    requires e != Exit
    ensures multiset(Step(f, e).1)[StatePreExit] + B2I(f.lastFrameHappened) <= B2I(Step(f, e).0.lastFrameHappened)
  {
    if e.Update? {
      FiredOnce(f, e.frame, StatePreExit);
    }
  }

  /** A callback other than OnStateEnter fires PostEnter only by setting the first-frame flag. */
  lemma StepPostEnter(f: Flags, e: Event)
    requires e != Enter
    ensures multiset(Step(f, e).1)[StatePostEnter] + B2I(f.firstFrameHappened) <= B2I(Step(f, e).0.firstFrameHappened)
  {
    if e.Update? {
      FiredOnce(f, e.frame, StatePostEnter);
    }
  }

  /**
   * Between two OnStateExit callbacks PreExit fires at most once, and not at
   * all when the last-frame flag is already set; if it fires, the flag ends
   * up set.
   */
  lemma {:induction false} PreExitAtMostOnceBetweenExits(f: Flags, events: seq<Event>)
    requires forall k :: 0 <= k < |events| ==> events[k] != Exit
    ensures multiset(Run(f, events).1)[StatePreExit] + B2I(f.lastFrameHappened)
      <= B2I(Run(f, events).0.lastFrameHappened)
    ensures multiset(Run(f, events).1)[StatePreExit] <= 1
    decreases |events|
  {
    if events != [] {
      RunCons(f, events);
      StepPreExit(f, events[0]);
      PreExitAtMostOnceBetweenExits(Step(f, events[0]).0, events[1..]);
    }
  }

  /**
   * Between two OnStateEnter callbacks PostEnter fires at most once, and not
   * at all when the first-frame flag is already set; if it fires, the flag
   * ends up set.
   */
  lemma {:induction false} PostEnterAtMostOnceBetweenEnters(f: Flags, events: seq<Event>)
    requires forall k :: 0 <= k < |events| ==> events[k] != Enter
    ensures multiset(Run(f, events).1)[StatePostEnter] + B2I(f.firstFrameHappened)
      <= B2I(Run(f, events).0.firstFrameHappened)
    ensures multiset(Run(f, events).1)[StatePostEnter] <= 1
    decreases |events|
  {
    if events != [] {
      RunCons(f, events);
      StepPostEnter(f, events[0]);
      PostEnterAtMostOnceBetweenEnters(Step(f, events[0]).0, events[1..]);
    }
  }

  // ---------------------------------------------------------------------------
  // The behaviour
  // ---------------------------------------------------------------------------

  /** A behaviour linked to the scene object (of type `M`) that drives it. */
  class SceneLinkedSMB<M> {
    var monoBehaviour: Option<M>
    var firstFrameHappened: bool
    var lastFrameHappened: bool

    ghost function State(): Flags
      reads this
    {
      Flags(firstFrameHappened, lastFrameHappened)
    }

    /** A behaviour as the animator creates it: not linked, both flags false. */
    constructor ()
      ensures monoBehaviour == None && State() == Flags(false, false)
    {
      monoBehaviour := None;
      firstFrameHappened := false;
      lastFrameHappened := false;
    }

    /**
     * Links every behaviour of the animator, in order, to `mono`, and returns
     * the behaviours in the order their OnStart hook is called.
     */
    static method Initialise(behaviours: seq<SceneLinkedSMB<M>>, mono: M) returns (started: seq<SceneLinkedSMB<M>>)
      modifies behaviours
      ensures forall b :: b in behaviours ==> b.monoBehaviour == Some(mono) && b.State() == old(b.State())
      ensures started == behaviours
    {
      started := [];
      for i := 0 to |behaviours|
        invariant forall j :: 0 <= j < i ==> behaviours[j].monoBehaviour == Some(mono)
        invariant forall b :: b in behaviours ==> b.State() == old(b.State())
        invariant started == behaviours[..i]
      {
        behaviours[i].InternalInitialise(mono);
        started := started + [behaviours[i]];
      }
    }

    /** Stores the scene object; the OnStart hook that follows does nothing by default. */
    method InternalInitialise(mono: M)
      modifies this
      ensures monoBehaviour == Some(mono) && State() == old(State())
    {
      monoBehaviour := Some(mono);
    }

    /** Clears the first-frame flag and fires Enter. */
    method OnStateEnter() returns (calls: seq<Call>)
      modifies this
      ensures (State(), [StateEnter]) == Step(old(State()), Enter)
      ensures calls == Expand([StateEnter])
      ensures monoBehaviour == old(monoBehaviour)
    {
      firstFrameHappened := false;
      calls := Fire(StateEnter);
    }

    /** Fires the per-frame hooks in their fixed order, as the animator reports the frame. */
    method OnStateUpdate(fr: Frame) returns (calls: seq<Call>)
      modifies this
      ensures State() == Step(old(State()), Update(fr)).0
      ensures calls == Expand(Step(old(State()), Update(fr)).1)
      ensures monoBehaviour == old(monoBehaviour)
    {
      ghost var f := State();
      calls := [];
      if !fr.activeSelf {
        return;
      }
      ghost var hooks: seq<Hook> := [];
      if fr.inTransition && fr.nextIsThis {
        ExpandSnoc(hooks, TransitionToStateUpdate);
        calls := calls + Fire(TransitionToStateUpdate);
        hooks := hooks + [TransitionToStateUpdate];
      }
      assert calls == Expand(hooks) && hooks == When(TransitionToStateUpdate, f, fr);
      if !fr.inTransition && firstFrameHappened {
        ExpandSnoc(hooks, StateNoTransitionUpdate);
        calls := calls + Fire(StateNoTransitionUpdate);
        hooks := hooks + [StateNoTransitionUpdate];
      }
      assert calls == Expand(hooks);
      assert hooks == When(TransitionToStateUpdate, f, fr) + When(StateNoTransitionUpdate, f, fr);
      if fr.inTransition && !lastFrameHappened && firstFrameHappened {
        lastFrameHappened := true;
        ExpandSnoc(hooks, StatePreExit);
        calls := calls + Fire(StatePreExit);
        hooks := hooks + [StatePreExit];
      }
      assert calls == Expand(hooks) && firstFrameHappened == f.firstFrameHappened;
      assert hooks == When(TransitionToStateUpdate, f, fr) + When(StateNoTransitionUpdate, f, fr) +
        When(StatePreExit, f, fr);
      if !fr.inTransition && !firstFrameHappened {
        firstFrameHappened := true;
        ExpandSnoc(hooks, StatePostEnter);
        calls := calls + Fire(StatePostEnter);
        hooks := hooks + [StatePostEnter];
      }
      assert calls == Expand(hooks) && State() == UpdatedFlags(f, fr);
      assert hooks == When(TransitionToStateUpdate, f, fr) + When(StateNoTransitionUpdate, f, fr) +
        When(StatePreExit, f, fr) + When(StatePostEnter, f, fr);
      if fr.inTransition && fr.currentIsThis {
        ExpandSnoc(hooks, TransitionFromStateUpdate);
        calls := calls + Fire(TransitionFromStateUpdate);
        hooks := hooks + [TransitionFromStateUpdate];
      }
      assert hooks == Fired(f, fr);
    }

    /** Clears the last-frame flag and fires Exit. */
    method OnStateExit() returns (calls: seq<Call>)
      modifies this
      ensures (State(), [StateExit]) == Step(old(State()), Exit)
      ensures calls == Expand([StateExit])
      ensures monoBehaviour == old(monoBehaviour)
    {
      lastFrameHappened := false;
      calls := Fire(StateExit);
    }
  }
}
