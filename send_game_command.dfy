/**
 * SendGameCommand: sends its `interactionType` to a receiver, subject to two
 * gates. A one-shot sender sends at most once. A sender sends again only when
 * at least `coolDown` seconds have passed since its last send. The engine
 * clock `Time.time` becomes the parameter `now`. Times and durations are
 * reals; float rounding is not modelled.
 */
module SendCommands {
  import opened GameCommands
  import opened UnityMath

  /** The identity of a SendGameCommand, for components that hold one and call its `Send`. */
  type SenderId = nat

  /** The sender's settings. */
  datatype Gate = Gate(oneShot: bool, coolDown: real)

  /** The sender's own state. */
  datatype SenderState = SenderState(isTriggered: bool, lastSendTime: real)

  /** What a call of `Send` does. */
  datatype SendOutcome =
    | Suppressed                            // a gate closed: nothing happens
    | Delivered(invoked: seq<HandlerId>)    // the receiver's callbacks for the type ran, in this order
    | NoReceiver                            // the state was updated, then the missing receiver threw

  /** A send at `now` passes both gates. */
  predicate Passes(g: Gate, s: SenderState, now: real)
  {
    !(g.oneShot && s.isTriggered) && !(now - s.lastSendTime < g.coolDown)
  }

  /** The state after a send attempt at `now`. */
  function AfterSend(g: Gate, s: SenderState, now: real): SenderState
  {
    if Passes(g, s, now) then SenderState(true, now) else s
  }

  /**
   * What a send attempt leaves for the next one: a successful send closes the
   * cool-down gate until `coolDown` seconds have passed, and closes a one-shot
   * sender for good; a suppressed attempt leaves the gates as they were.
   */
  lemma SendClosesGates(g: Gate, s: SenderState, now: real, later: real)
    ensures Passes(g, s, now) && later - now < g.coolDown ==> !Passes(g, AfterSend(g, s, now), later)
    ensures Passes(g, s, now) && g.oneShot ==> !Passes(g, AfterSend(g, s, now), later)
    ensures Passes(g, s, now) && !g.oneShot && later - now >= g.coolDown ==> Passes(g, AfterSend(g, s, now), later)
    ensures !Passes(g, s, now) ==> (Passes(g, AfterSend(g, s, now), later) <==> Passes(g, s, later))
  {
  }

  /** The times, among the attempts at `times`, at which a command is actually sent. */
  function SentAt(g: Gate, s: SenderState, times: seq<real>): seq<real>
    decreases |times|
  {
    if times == [] then []
    else (if Passes(g, s, times[0]) then [times[0]] else []) + SentAt(g, AfterSend(g, s, times[0]), times[1..])
  }

  /**
   * Successful sends are at least `coolDown` apart, and the first is at least
   * `coolDown` after the last send before the attempts. Since a new sender's
   * `lastSendTime` is 0, it sends nothing before time `coolDown`.
   */
  lemma {:induction false} SendsAreCooledDown(g: Gate, s: SenderState, times: seq<real>)
    ensures forall i :: 0 <= i < |SentAt(g, s, times)| - 1 ==>
      SentAt(g, s, times)[i + 1] - SentAt(g, s, times)[i] >= g.coolDown
    ensures |SentAt(g, s, times)| > 0 ==> SentAt(g, s, times)[0] - s.lastSendTime >= g.coolDown
    decreases |times|
  {
    if times != [] {
      var s' := AfterSend(g, s, times[0]);
      SendsAreCooledDown(g, s', times[1..]);
      var rest := SentAt(g, s', times[1..]);
      if Passes(g, s, times[0]) {
        assert SentAt(g, s, times) == [times[0]] + rest;
      } else {
        assert SentAt(g, s, times) == rest;
      }
    }
  }

  /**
   * With a non-negative cool-down the spacing holds for every pair of
   * successful sends, not only for consecutive ones: a sender sends again only
   * after `coolDown` seconds.
   */
  lemma {:induction false} AnyTwoSendsAreCooledDown(g: Gate, s: SenderState, times: seq<real>)
    requires g.coolDown >= 0.0
    ensures forall i, j :: 0 <= i < j < |SentAt(g, s, times)| ==>
      SentAt(g, s, times)[j] - SentAt(g, s, times)[i] >= g.coolDown
  {
    var sent := SentAt(g, s, times);
    SendsAreCooledDown(g, s, times);
    forall i, j | 0 <= i < j < |sent| ensures sent[j] - sent[i] >= g.coolDown {
      var k := i + 1;
      while k < j
        invariant i + 1 <= k <= j
        invariant sent[k] - sent[i] >= g.coolDown
        decreases j - k
      {
        assert sent[k + 1] - sent[k] >= g.coolDown;
        k := k + 1;
      }
    }
  }

  /** A one-shot sender sends at most once, and never again once it has been triggered. */
  lemma {:induction false} OneShotSendsOnce(g: Gate, s: SenderState, times: seq<real>)
    requires g.oneShot
    ensures |SentAt(g, s, times)| <= (if s.isTriggered then 0 else 1)
    decreases |times|
  {
    if times != [] {
      var s' := AfterSend(g, s, times[0]);
      OneShotSendsOnce(g, s', times[1..]);
    }
  }

  class SendGameCommand {
    var interactionType: GameCommandType
    var interactiveObject: GameCommandReceiver?
    var oneShot: bool
    var coolDown: real
    var lastSendTime: real
    var isTriggered: bool

    ghost function Settings(): Gate
      reads this
    {
      Gate(oneShot, coolDown)
    }

    ghost function State(): SenderState
      reads this
    {
      SenderState(isTriggered, lastSendTime)
    }

    /** A sender as the engine creates it: repeating, one-second cool-down, never sent. */
    constructor (interactionType: GameCommandType, interactiveObject: GameCommandReceiver?)
      ensures this.interactionType == interactionType && this.interactiveObject == interactiveObject
      ensures Settings() == Gate(false, 1.0) && State() == SenderState(false, 0.0)
    {
      this.interactionType := interactionType;
      this.interactiveObject := interactiveObject;
      oneShot := false;
      coolDown := 1.0;
      lastSendTime := 0.0;
      isTriggered := false;
    }

    /**
     * How recently the sender sent, for display: 1 at the moment of a send,
     * falling linearly to 0 one second later and staying there.
     */
    function Temperature(now: real): (t: real)
      reads this
      ensures 0.0 <= t <= 1.0
      ensures now <= lastSendTime ==> t == 1.0
      ensures now - lastSendTime >= 1.0 ==> t == 0.0
      ensures 0.0 <= now - lastSendTime <= 1.0 ==> t + (now - lastSendTime) == 1.0
    {
      1.0 - Clamp01(now - lastSendTime)
    }

    /**
     * Sends `interactionType` to the receiver, unless a one-shot sender has
     * already sent or the cool-down since the last send has not elapsed.
     */
    method Send(now: real) returns (outcome: SendOutcome)
      modifies this`isTriggered, this`lastSendTime
      ensures State() == AfterSend(Settings(), old(State()), now)
      ensures !Passes(Settings(), old(State()), now) <==> outcome == Suppressed
      ensures outcome != Suppressed ==> Temperature(now) == 1.0
      ensures outcome != Suppressed && interactiveObject == null ==> outcome == NoReceiver
      ensures outcome != Suppressed && interactiveObject != null ==>
        outcome == Delivered(Callbacks(interactiveObject.handlers, interactionType))
    {
      if oneShot && isTriggered {
        return Suppressed;
      }
      if now - lastSendTime < coolDown {
        return Suppressed;
      }
      isTriggered := true;
      lastSendTime := now;
      if interactiveObject == null {
        return NoReceiver;
      }
      var invoked := interactiveObject.Receive(interactionType);
      return Delivered(invoked);
    }
  }
}
