/**
 * GameplayCounter: a command handler that counts the interactions it
 * receives. Each interaction adds one to `currentCount`; once the count
 * reaches `targetCount` the "target reached" action and command run,
 * before that the "increment" ones do. The four optional targets are known
 * here by their identities, and the calls the counter makes are returned in
 * order as `Call` values; what the called handler or sender then does is
 * modelled by its own component. `currentCount` is a C# `int`, so the
 * increment wraps around at 2^31.
 */
module Counters {
  import opened Options
  import opened GameCommands
  import opened SendCommands

  const IntMin: int := -0x8000_0000
  const IntMax: int := 0x7FFF_FFFF

  /** The values of a C# `int`. */
  predicate IsInt(x: int)
  {
    IntMin <= x <= IntMax
  }

  /** `x` reduced to a C# `int`, as unchecked integer arithmetic does. */
  function Wrap(x: int): (r: int)
    ensures IsInt(r)
    ensures IsInt(x) ==> r == x
  {
    (x - IntMin) % 0x1_0000_0000 + IntMin
  }

  /** `Wrap` depends on its argument only modulo 2^32. */
  lemma WrapShift(x: int, k: int)
    ensures Wrap(x + k * 0x1_0000_0000) == Wrap(x)
  {
    var n := 0x1_0000_0000;
    var q := (x - IntMin) / n;
    assert x - IntMin == q * n + (x - IntMin) % n;
    assert x + k * n - IntMin == (q + k) * n + (x - IntMin) % n;
  }

  /** Wrapping before adding changes nothing: `Wrap(Wrap(x) + y) == Wrap(x + y)`. */
  lemma WrapAdd(x: int, y: int)
    ensures Wrap(Wrap(x) + y) == Wrap(x + y)
  {
    var n := 0x1_0000_0000;
    var q := (x - IntMin) / n;
    assert Wrap(x) == x - q * n;
    WrapShift(x + y, -q);
    assert x + y + (-q) * n == Wrap(x) + y;
  }

  /** What the counter calls, in order. */
  datatype Call = PerformAction(handler: HandlerId) | SendCommand(sender: SenderId)

  /** The counter's settings: the threshold and the four optional targets. */
  datatype Wiring = Wiring(
    targetCount: int,
    onIncrementSendCommand: Option<SenderId>,
    onIncrementPerformAction: Option<HandlerId>,
    onTargetReachedSendCommand: Option<SenderId>,
    onTargetReachedPerformAction: Option<HandlerId>)

  /** `currentCount` and the inherited `isTriggered`. */
  datatype CounterState = CounterState(currentCount: int, isTriggered: bool)

  /** The calls of one branch: the action (when set), then the command (when set). */
  function BranchCalls(action: Option<HandlerId>, command: Option<SenderId>): (cs: seq<Call>)
    ensures |cs| == (if action.Some? then 1 else 0) + (if command.Some? then 1 else 0)
    ensures action.Some? ==> cs[0] == PerformAction(action.value)
    ensures command.Some? ==> cs[|cs| - 1] == SendCommand(command.value)
    ensures forall c :: c in cs ==>
      (action.Some? && c == PerformAction(action.value)) || (command.Some? && c == SendCommand(command.value))
  {
    (if action.Some? then [PerformAction(action.value)] else [])
      + (if command.Some? then [SendCommand(command.value)] else [])
  }

  /** One `PerformInteraction`: the new state and the calls made. */
  function Interact(w: Wiring, s: CounterState): (CounterState, seq<Call>)
  {
    var count := Wrap(s.currentCount + 1);
    if count >= w.targetCount then
      (CounterState(count, true), BranchCalls(w.onTargetReachedPerformAction, w.onTargetReachedSendCommand))
    else
      (CounterState(count, false), BranchCalls(w.onIncrementPerformAction, w.onIncrementSendCommand))
  }

  /**
   * One interaction adds exactly one to the count, wrapping from the largest
   * `int` to the smallest; it marks the handler triggered exactly when the new
   * count has reached the target.
   */
  lemma InteractionCounts(w: Wiring, s: CounterState)
    requires IsInt(s.currentCount)
    ensures s.currentCount < IntMax ==> Interact(w, s).0.currentCount == s.currentCount + 1
    ensures s.currentCount == IntMax ==> Interact(w, s).0.currentCount == IntMin
    ensures Interact(w, s).0.isTriggered <==> Interact(w, s).0.currentCount >= w.targetCount
  {
    if s.currentCount == IntMax {
      assert (IntMax + 1 - IntMin) % 0x1_0000_0000 == 0;
    }
  }

  /**
   * Once the new count reaches the target, only the target-reached action and
   * then the target-reached command are called; before that only the increment
   * action and then the increment command are.
   */
  lemma BranchSelection(w: Wiring, s: CounterState)
    ensures Interact(w, s).0.currentCount >= w.targetCount ==>
      Interact(w, s).1 == BranchCalls(w.onTargetReachedPerformAction, w.onTargetReachedSendCommand)
    ensures Interact(w, s).0.currentCount < w.targetCount ==>
      Interact(w, s).1 == BranchCalls(w.onIncrementPerformAction, w.onIncrementSendCommand)
  {
  }

  /** Which targets are set affects only the calls, never the count or `isTriggered`. */
  lemma TargetsDoNotAffectState(w: Wiring, w': Wiring, s: CounterState)
    requires w.targetCount == w'.targetCount
    ensures Interact(w, s).0 == Interact(w', s).0
  {
  }

  /** `k` interactions in a row: the final state and all calls, in order. */
  function Interactions(w: Wiring, s: CounterState, k: nat): (CounterState, seq<Call>)
    decreases k
  {
    if k == 0 then (s, [])
    else
      var (s', calls) := Interact(w, s);
      var (s'', rest) := Interactions(w, s', k - 1);
      (s'', calls + rest)
  }

  /** `cs` repeated `k` times. */
  function Copies(cs: seq<Call>, k: nat): seq<Call>
  {
    if k == 0 then [] else cs + Copies(cs, k - 1)
  }

  /**
   * After `k` interactions the count is `c0 + k`, reduced to an `int`; so it
   * is exactly `c0 + k` while that does not pass the largest `int`.
   */
  lemma {:induction false} CountAfter(w: Wiring, s: CounterState, k: nat)
    requires IsInt(s.currentCount)
    ensures Interactions(w, s, k).0.currentCount == Wrap(s.currentCount + k)
    ensures s.currentCount + k <= IntMax ==> Interactions(w, s, k).0.currentCount == s.currentCount + k
    decreases k
  {
    if k > 0 {
      var s' := Interact(w, s).0;
      CountAfter(w, s', k - 1);
      WrapAdd(s.currentCount + 1, k - 1);
    }
  }

  /**
   * The count is never reset: once it has reached the target, the next `k`
   * interactions all take the target-reached branch, as long as the count
   * does not wrap around.
   */
  lemma {:induction false} TargetStaysReached(w: Wiring, s: CounterState, k: nat)
    requires IsInt(s.currentCount) && s.currentCount >= w.targetCount
    requires s.currentCount + k <= IntMax
    ensures Interactions(w, s, k).1 == Copies(BranchCalls(w.onTargetReachedPerformAction, w.onTargetReachedSendCommand), k)
    ensures k > 0 ==> Interactions(w, s, k).0 == CounterState(s.currentCount + k, true)
    decreases k
  {
    if k > 0 {
      var s' := Interact(w, s).0;
      assert s' == CounterState(s.currentCount + 1, true);
      TargetStaysReached(w, s', k - 1);
    }
  }

  class GameplayCounter {
    var currentCount: int
    var targetCount: int
    var isTriggered: bool
    var onIncrementSendCommand: Option<SenderId>
    var onIncrementPerformAction: Option<HandlerId>
    var onTargetReachedSendCommand: Option<SenderId>
    var onTargetReachedPerformAction: Option<HandlerId>

    /** Both counts are C# `int`s. */
    ghost predicate Valid()
      reads this
    {
      IsInt(currentCount) && IsInt(targetCount)
    }

    ghost function Settings(): Wiring
      reads this
    {
      Wiring(targetCount, onIncrementSendCommand, onIncrementPerformAction,
        onTargetReachedSendCommand, onTargetReachedPerformAction)
    }

    ghost function State(): CounterState
      reads this
    {
      CounterState(currentCount, isTriggered)
    }

    /** A counter as the engine creates it: count 0, target 3, not triggered. */
    constructor (onIncrementSendCommand: Option<SenderId>, onIncrementPerformAction: Option<HandlerId>,
                 onTargetReachedSendCommand: Option<SenderId>, onTargetReachedPerformAction: Option<HandlerId>)
      ensures Valid()
      ensures State() == CounterState(0, false)
      ensures Settings() == Wiring(3, onIncrementSendCommand, onIncrementPerformAction,
        onTargetReachedSendCommand, onTargetReachedPerformAction)
    {
      currentCount := 0;
      targetCount := 3;
      isTriggered := false;
      this.onIncrementSendCommand := onIncrementSendCommand;
      this.onIncrementPerformAction := onIncrementPerformAction;
      this.onTargetReachedSendCommand := onTargetReachedSendCommand;
      this.onTargetReachedPerformAction := onTargetReachedPerformAction;
    }

    /** Counts one interaction and calls the targets of the branch the new count selects. */
    method PerformInteraction() returns (calls: seq<Call>)
      requires Valid()
      modifies this`currentCount, this`isTriggered
      ensures Valid()
      ensures (State(), calls) == Interact(Settings(), old(State()))
    {
      currentCount := Wrap(currentCount + 1);
      calls := [];
      if currentCount >= targetCount {
        if onTargetReachedPerformAction.Some? {
          calls := calls + [PerformAction(onTargetReachedPerformAction.value)];
        }
        if onTargetReachedSendCommand.Some? {
          calls := calls + [SendCommand(onTargetReachedSendCommand.value)];
        }
        assert calls == BranchCalls(onTargetReachedPerformAction, onTargetReachedSendCommand);
        isTriggered := true;
      } else {
        if onIncrementPerformAction.Some? {
          calls := calls + [PerformAction(onIncrementPerformAction.value)];
        }
        if onIncrementSendCommand.Some? {
          calls := calls + [SendCommand(onIncrementSendCommand.value)];
        }
        assert calls == BranchCalls(onIncrementPerformAction, onIncrementSendCommand);
        isTriggered := false;
      }
    }
  }
}
