/**
 * SimpleTransformer: the timer behind the kit's moving platforms and doors.
 * An interaction activates it; from then on every physics step advances
 * `time` by `direction * dt / duration` and maps it to a `position` in
 * `[0, 1]` according to the loop mode, then hands that position to
 * `PerformTransform`, which a subclass overrides. In Once mode reaching the
 * end disables the behaviour, sends the stop command and reverses the
 * direction.
 *
 * The physics step length `Time.deltaTime` becomes the parameter `dt`. The
 * start and stop senders are known by their identities and the calls the
 * transformer makes are returned in order as `Call` values. The engine calls
 * `FixedUpdate` only while the behaviour is `enabled`; `Tick` models that.
 */
module Transformers {
  import opened Options
  import opened SendCommands
  import UnityMath

  datatype LoopType = Once | PingPong | Repeat

  /** What the transformer calls, in order. */
  datatype Call = SendCommand(sender: SenderId) | Transform(position: real)

  /** The inspector settings. */
  datatype Config = Config(
    loopType: LoopType,
    duration: real,
    onStartCommand: Option<SenderId>,
    onStopCommand: Option<SenderId>)

  /** The fields the behaviour changes. */
  datatype Motion = Motion(time: real, position: real, direction: real, activate: bool, enabled: bool)

  /** The send of an optional command. */
  function SendIfSet(command: Option<SenderId>): seq<Call>
  {
    if command.Some? then [SendCommand(command.value)] else []
  }

  /** `PerformInteraction`: activate, then send the start command if there is one. */
  function Interaction(s: Config, m: Motion): (Motion, seq<Call>)
  {
    (m.(activate := true), SendIfSet(s.onStartCommand))
  }

  /** The position a loop mode gives for `time`: it always lies in `[0, 1]`. */
  function Position(loopType: LoopType, time: real): (p: real)
    ensures 0.0 <= p <= 1.0
  {
    match loopType
    case Once => UnityMath.Clamp01(time)
    case PingPong => UnityMath.PingPong(time, 1.0)
    case Repeat => UnityMath.Repeat(time, 1.0)
  }

  /** The time after a step of `dt` seconds: `duration` seconds of steps move it by one unit in `direction`. */
  function NextTime(m: Motion, dt: real, duration: real): real
    requires duration > 0.0
  {
    m.time + m.direction * dt / duration
  }

  /** One `FixedUpdate` with step `dt`: the new fields and the calls made. */
  function Advance(s: Config, m: Motion, dt: real): (Motion, seq<Call>)
    requires s.duration > 0.0
  {
    if !m.activate then (m, [])
    else
      var time := NextTime(m, dt, s.duration);
      var position := Position(s.loopType, time);
      if s.loopType == Once && position >= 1.0 then
        (Motion(time, position, m.direction * -1.0, m.activate, false),
         SendIfSet(s.onStopCommand) + [Transform(position)])
      else
        (m.(time := time, position := position), [Transform(position)])
  }

  /** An inactive transformer's step changes nothing and calls nothing. */
  lemma InactiveStepIsInert(s: Config, m: Motion, dt: real)
    requires s.duration > 0.0 && !m.activate
    ensures Advance(s, m, dt) == (m, [])
  {
  }

  /**
   * An active step moves `time` by `direction * dt / duration`, sets the position
   * the loop mode gives for the new time, which lies in `[0, 1]`, and ends by
   * passing that position to `PerformTransform`. Only Once mode changes
   * `direction` or `enabled`, and `activate` never changes.
   */
  lemma ActiveStepTransforms(s: Config, m: Motion, dt: real)
    requires s.duration > 0.0 && m.activate
    ensures var (m', calls) := Advance(s, m, dt);
      && m'.time == m.time + m.direction * dt / s.duration
      && m'.position == Position(s.loopType, m'.time)
      && 0.0 <= m'.position <= 1.0
      && |calls| > 0 && calls[|calls| - 1] == Transform(m'.position)
      && m'.activate
      && (s.loopType != Once ==> m'.direction == m.direction && m'.enabled == m.enabled && |calls| == 1)
  {
  }

  /**
   * Once mode, at the end: when the new time reaches 1, the position is 1, the
   * behaviour is disabled, the direction is reversed and the stop command (if
   * any) is sent before the transform.
   */
  lemma OnceStopsAtEnd(s: Config, m: Motion, dt: real)
    requires s.duration > 0.0 && m.activate && s.loopType == Once
    requires NextTime(m, dt, s.duration) >= 1.0
    ensures Advance(s, m, dt).0.position == 1.0
    ensures !Advance(s, m, dt).0.enabled
    ensures Advance(s, m, dt).0.direction == -m.direction
    ensures Advance(s, m, dt).1 == SendIfSet(s.onStopCommand) + [Transform(1.0)]
  {
    var time := NextTime(m, dt, s.duration);
    assert Position(Once, time) == 1.0;
    assert Advance(s, m, dt).0 == Motion(time, 1.0, m.direction * -1.0, m.activate, false);
  }

  /**
   * Once mode, before the end: while the new time is below 1 the direction and
   * `enabled` stay as they were and nothing is sent. In particular, moving
   * backwards past 0 leaves the position at 0 without stopping or reversing.
   */
  lemma OnceRunsBeforeEnd(s: Config, m: Motion, dt: real)
    requires s.duration > 0.0 && m.activate && s.loopType == Once
    requires NextTime(m, dt, s.duration) < 1.0
    ensures Advance(s, m, dt).0.direction == m.direction
    ensures Advance(s, m, dt).0.enabled == m.enabled
    ensures Advance(s, m, dt).1 == [Transform(Advance(s, m, dt).0.position)]
    ensures Advance(s, m, dt).0.time <= 0.0 ==> Advance(s, m, dt).0.position == 0.0
    ensures Advance(s, m, dt).0.time >= 0.0 ==> Advance(s, m, dt).0.position == Advance(s, m, dt).0.time
  {
    var time := NextTime(m, dt, s.duration);
    assert Position(Once, time) < 1.0;
  }

  /**
   * Repeat mode keeps the fractional part of the time: the position climbs
   * with the time and restarts at 0 after each full period.
   */
  lemma RepeatPosition(time: real)
    ensures Position(Repeat, time) == time - time.Floor as real
    ensures Position(Repeat, time) < 1.0
    ensures Position(Repeat, time + 1.0) == Position(Repeat, time)
  {
    UnityMath.RepeatUnit(time);
  }

  /** PingPong mode follows the time up to 1 and back down over the next period, with period 2. */
  lemma PingPongPosition(time: real)
    ensures 0.0 <= time <= 1.0 ==> Position(PingPong, time) == time
    ensures 1.0 <= time < 2.0 ==> Position(PingPong, time) == 2.0 - time
    ensures Position(PingPong, time + 2.0) == Position(PingPong, time)
  {
    UnityMath.PingPongUnit(time);
  }

  /** One physics step as the engine runs it: `FixedUpdate` only while enabled. */
  function Tick(s: Config, m: Motion, dt: real): (Motion, seq<Call>)
    requires s.duration > 0.0
  {
    if m.enabled then Advance(s, m, dt) else (m, [])
  }

  /** Physics steps of lengths `dts`, in order: the final fields and all calls. */
  function Ticks(s: Config, m: Motion, dts: seq<real>): (Motion, seq<Call>)
    requires s.duration > 0.0
    decreases |dts|
  {
    if dts == [] then (m, [])
    else
      var (m', calls) := Tick(s, m, dts[0]);
      var (m'', rest) := Ticks(s, m', dts[1..]);
      (m'', calls + rest)
  }

  /** The number of commands sent among `cs`. */
  function Sends(cs: seq<Call>): nat
  {
    if cs == [] then 0 else (if cs[0].SendCommand? then 1 else 0) + Sends(cs[1..])
  }

  lemma {:induction false} SendsAppend(a: seq<Call>, b: seq<Call>)
    ensures Sends(a + b) == Sends(a) + Sends(b)
  {
    if a != [] {
      assert (a + b)[0] == a[0];
      assert (a + b)[1..] == a[1..] + b;
      SendsAppend(a[1..], b);
    } else {
      assert a + b == b;
    }
  }

  /**
   * In Once mode the stop command is sent at most once however many physics
   * steps follow, and never by a behaviour already disabled: reaching the end
   * disables the behaviour, after which the engine no longer calls
   * `FixedUpdate`, so nothing changes any more.
   */
  lemma {:induction false} OnceSendsStopAtMostOnce(s: Config, m: Motion, dts: seq<real>)
    requires s.duration > 0.0 && s.loopType == Once
    ensures Sends(Ticks(s, m, dts).1) <= (if m.enabled then 1 else 0)
    ensures !m.enabled ==> Ticks(s, m, dts) == (m, [])
    decreases |dts|
  {
    if dts != [] {
      var (m', calls) := Tick(s, m, dts[0]);
      OnceSendsStopAtMostOnce(s, m', dts[1..]);
      SendsAppend(calls, Ticks(s, m', dts[1..]).1);
      if m.enabled && m.activate && m'.enabled {
        assert calls == [Transform(m'.position)];
      }
    }
  }

  class SimpleTransformer {
    var loopType: LoopType
    var duration: real
    var activate: bool
    var onStartCommand: Option<SenderId>
    var onStopCommand: Option<SenderId>
    var time: real
    var position: real
    var direction: real
    /** `MonoBehaviour.enabled`: the engine calls `FixedUpdate` only while it is true. */
    var enabled: bool

    ghost function Settings(): Config
      reads this
    {
      Config(loopType, duration, onStartCommand, onStopCommand)
    }

    ghost function State(): Motion
      reads this
    {
      Motion(time, position, direction, activate, enabled)
    }

    /** A transformer as the engine creates it: inactive, at time 0, moving forwards, one-second duration. */
    constructor (loopType: LoopType, onStartCommand: Option<SenderId>, onStopCommand: Option<SenderId>)
      ensures Settings() == Config(loopType, 1.0, onStartCommand, onStopCommand)
      ensures State() == Motion(0.0, 0.0, 1.0, false, true)
    {
      this.loopType := loopType;
      duration := 1.0;
      activate := false;
      this.onStartCommand := onStartCommand;
      this.onStopCommand := onStopCommand;
      time := 0.0;
      position := 0.0;
      direction := 1.0;
      enabled := true;
    }

    /** Activates the transformer and sends the start command, if there is one. */
    method PerformInteraction() returns (calls: seq<Call>)
      modifies this`activate
      ensures (State(), calls) == Interaction(Settings(), old(State()))
    {
      activate := true;
      calls := [];
      if onStartCommand.Some? {
        calls := calls + [SendCommand(onStartCommand.value)];
      }
      assert calls == SendIfSet(onStartCommand);
      assert State() == old(State()).(activate := true);
    }

    /** One physics step of length `dt`; nothing happens until the transformer is activated. */
    method FixedUpdate(dt: real) returns (calls: seq<Call>)
      requires duration > 0.0
      modifies this`time, this`position, this`direction, this`enabled
      ensures (State(), calls) == Advance(Settings(), old(State()), dt)
    {
      ghost var before := State();
      calls := [];
      if activate {
        time := time + (direction * dt / duration);
        ghost var newTime := time;
        assert newTime == NextTime(before, dt, duration);
        match loopType {
          case Once =>
            calls := LoopOnce();
          case PingPong =>
            LoopPingPong();
          case Repeat =>
            LoopRepeat();
        }
        assert position == Position(loopType, time);
        assert loopType == Once && position >= 1.0 ==> calls == SendIfSet(onStopCommand);
        assert !(loopType == Once && position >= 1.0) ==> calls == [];
        var transform := PerformTransform(position);
        calls := calls + transform;
        ghost var r := Advance(Settings(), before, dt);
        assert time == newTime;
        assert r.0.time == time;
        assert r.0.position == position;
        assert r.0.direction == direction;
        assert r.0.enabled == enabled;
        assert r.1 == calls;
      }
    }

    /** The hook a subclass overrides to move its object; here it only records the call. */
    method PerformTransform(position: real) returns (calls: seq<Call>)
      ensures calls == [Transform(position)]
    {
      calls := [Transform(position)];
    }

    method LoopPingPong()
      modifies this`position
      ensures position == UnityMath.PingPong(time, 1.0)
    {
      position := UnityMath.PingPong(time, 1.0);
    }

    method LoopRepeat()
      modifies this`position
      ensures position == UnityMath.Repeat(time, 1.0)
    {
      position := UnityMath.Repeat(time, 1.0);
    }

    /** Clamps the time; at the end disables the behaviour, sends the stop command and reverses. */
    method LoopOnce() returns (calls: seq<Call>)
      modifies this`position, this`enabled, this`direction
      ensures position == UnityMath.Clamp01(time)
      ensures position >= 1.0 ==> !enabled && direction == old(direction) * -1.0
      ensures position < 1.0 ==> enabled == old(enabled) && direction == old(direction)
      ensures calls == if position >= 1.0 then SendIfSet(onStopCommand) else []
    {
      calls := [];
      position := UnityMath.Clamp01(time);
      if position >= 1.0 {
        enabled := false;
        if onStopCommand.Some? {
          calls := calls + [SendCommand(onStopCommand.value)];
        }
        direction := direction * -1.0;
      }
    }
  }
}
