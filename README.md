# 3D Gamekit Lite: the discrete gameplay logic, in Dafny

This project models the small sequential state machines behind 3D Gamekit
Lite's gameplay, and proves what they promise:

- **TargetDistributor** (`target_distributor.dfy`, module `TargetDistribution`).
  This is the arc-slot allocator that spreads enemies around the player. A
  ring of `arcsCount` arcs is kept in a `bool` array (`true` = free), alongside
  a list of `TargetFollower` records.
  - `GetFreeArcIndex` tries the wanted arc first. It then probes left before
    right at growing offsets, up to `arcsCount / 2`.
  - `LateUpdate` frees every follower's arc and hands new ones to the
    followers that ask.
  - The methods work in place on the array and on the followers' fields. Each
    is proved against a function on sequences (`SelectArc`, `Claim`,
    `DistributeAsWritten`).
- **SceneLinkedSMB** (`scene_linked_smb.dfy`, module `SceneLinked`). This is
  the animator state behaviour that turns OnStateEnter / OnStateUpdate /
  OnStateExit into finer hooks (PostEnter, NoTransitionUpdate, PreExit, ...).
  It tracks this with two flags. Each callback is a method that returns the
  hook calls it makes, in order. It is proved equal to a step function
  (`Step`), and traces of steps (`Run`) carry the "at most once" properties.
- **The game command pipeline.**
  - `GameCommandReceiver` (`game_command_receiver.dfy`): a dictionary from
    command type to an ordered list of handlers.
  - `SendGameCommand` (`send_game_command.dfy`): sending, gated by a one-shot
    rule and a cool-down.
  - `SendOnTriggerEnter` (`send_on_trigger_enter.dfy`): sends only for
    colliders whose layer the mask selects.
  - Two handlers: `GameplayCounter` (`gameplay_counter.dfy`), a counter with a
    target, and `SimpleTransformer` (`simple_transformer.dfy`), a timer with
    Once / PingPong / Repeat loop modes.
  - `Mathf.Clamp01 / Repeat / PingPong` are modelled on reals as the engine
    documents them (`unity_math.dfy`).
  - `lists.dfy` holds `Option` and C#'s `List.Remove`, i.e. removing the first
    occurrence.

Engine inputs become parameters:

- the ray casts of GetFreeArcIndex become a set `blocked` of arcs, one per
  follower;
- the wanted arc index is passed in;
- the animator queries become a `Frame` of four booleans;
- `Time.time` and `Time.deltaTime` become `now` and `dt`;
- a collider becomes its layer number.

When one component calls another (a handler's `OnInteraction`, a sender's
`Send`, a subclass's `PerformTransform`), the call is returned as a value in
an ordered list. Handlers and senders are known by identity (`HandlerId`,
`SenderId`).

## Model

| member | source | states |
|---|---|---|
| TargetDistribution.TargetFollower.constructor | Assets/3DGamekitLite/Scripts/Game/Core/TargetDistributor.cs:33-39 | a new follower belongs to its distributor, does not ask for a slot and holds none (-1) |
| TargetDistribution.TargetDistributor.constructor | Assets/3DGamekitLite/Scripts/Game/Core/TargetDistributor.cs:42-49 | a new distributor has its arc count and no follower; the ring is laid out by OnEnable |
| TargetDistribution.TargetDistributor.OnEnable | Assets/3DGamekitLite/Scripts/Game/Core/TargetDistributor.cs:51-69 | requires `arcsCount > 0`; both arrays have length `arcsCount`, every arc is free, the follower list is empty, `arcDegree = 360 / arcsCount`, and arc `i` is turned `i * arcDegree` anticlockwise |
| TargetDistribution.TargetDistributor.GetDirection | Assets/3DGamekitLite/Scripts/Game/Core/TargetDistributor.cs:131-134 | the heading of arc `index` is `index * arcDegree` degrees anticlockwise, once the ring is laid out |
| TargetDistribution.TargetDistributor.RegisterNewFollower | Assets/3DGamekitLite/Scripts/Game/Core/TargetDistributor.cs:76-81 | a fresh follower with no slot is appended to the list; the list stays free of duplicates |
| TargetDistribution.TargetDistributor.UnregisterFollower | Assets/3DGamekitLite/Scripts/Game/Core/TargetDistributor.cs:89-98 | the follower's arc is freed if it holds one (no other arc changes), and its first occurrence is removed from the list; its `assignedSlot` is not reset |
| TargetDistribution.TargetDistributor.LateUpdate | Assets/3DGamekitLite/Scripts/Game/Core/TargetDistributor.cs:104-124 | arcs and slots afterwards equal `DistributeAsWritten` of the arcs, slots and requests before, taking the followers in list order; a follower that does not ask keeps its stale slot |
| TargetDistribution.TargetDistributor.ServeFollower | Assets/3DGamekitLite/Scripts/Game/Core/TargetDistributor.cs:108-122 | one loop iteration equals `FollowerStepAsWritten`: release the held arc, then claim one for a follower that asks; a follower that does not ask keeps its `assignedSlot` |
| TargetDistribution.TargetDistributor.AssignArc | Assets/3DGamekitLite/Scripts/Game/Core/TargetDistributor.cs:119-122 | a follower that asks gets the arc GetFreeArcIndex claims from the released arcs |
| TargetDistribution.TargetDistributor.SetAssignedSlot | Assets/3DGamekitLite/Scripts/Game/Core/TargetDistributor.cs:121 | only follower `i`'s slot changes |
| TargetDistribution.TargetDistributor.GetFreeArcIndex | Assets/3DGamekitLite/Scripts/Game/Core/TargetDistributor.cs:141-213 | returns `SelectArc` of the arcs before the call, and the arcs afterwards are `Claim` of them: only the chosen arc changes, from free to taken |
| TargetDistribution.TargetDistributor.SearchArc | Assets/3DGamekitLite/Scripts/Game/Core/TargetDistributor.cs:160-204 | the probe loop finds `SelectArc`: the wanted arc, then left before right at offsets 1 to `arcsCount / 2` |
| TargetDistribution.TargetDistributor.FreeIndex | Assets/3DGamekitLite/Scripts/Game/Core/TargetDistributor.cs:220-223 | only arc `index` changes, and it becomes free |
| TargetDistribution.WrapWanted | Assets/3DGamekitLite/Scripts/Game/Core/TargetDistributor.cs:160-161 | one subtraction brings a wanted index in `[0, arcsCount]` into range; it equals the index modulo `arcsCount` |
| TargetDistribution.LeftProbe | Assets/3DGamekitLite/Scripts/Game/Core/TargetDistributor.cs:179-183 | the left probe stays in `[0, arcsCount)` while `offset <= arcsCount / 2` |
| TargetDistribution.RightProbe | Assets/3DGamekitLite/Scripts/Game/Core/TargetDistributor.cs:180-184 | the right probe stays in `[0, arcsCount)` while `offset <= arcsCount / 2` |
| TargetDistribution.ProbesWrapModulo | Assets/3DGamekitLite/Scripts/Game/Core/TargetDistributor.cs:179-184 | the wrapped probes are the neighbours `(w - offset) mod n` and `(w + offset) mod n` |
| TargetDistribution.ProbeAt | Assets/3DGamekitLite/Scripts/Game/Core/TargetDistributor.cs:169-203 | the k-th arc tried lies in range |
| TargetDistribution.ProbeAtOffset | Assets/3DGamekitLite/Scripts/Game/Core/TargetDistributor.cs:187-200 | at each offset the left arc is tried just before the right one |
| TargetDistribution.SelectFrom | Assets/3DGamekitLite/Scripts/Game/Core/TargetDistributor.cs:177-203 | the search answers -1 or an arc that is free and not blocked |
| TargetDistribution.SelectArc | Assets/3DGamekitLite/Scripts/Game/Core/TargetDistributor.cs:169-210 | GetFreeArcIndex's answer is -1 or an arc that is free and not blocked |
| TargetDistribution.Claim | Assets/3DGamekitLite/Scripts/Game/Core/TargetDistributor.cs:212 | a claim keeps the number of arcs |
| TargetDistribution.SelectFromNone | Assets/3DGamekitLite/Scripts/Game/Core/TargetDistributor.cs:177-210 | the search answers -1 exactly when none of the arcs it still tries is available |
| TargetDistribution.SelectFromFirst | Assets/3DGamekitLite/Scripts/Game/Core/TargetDistributor.cs:177-203 | otherwise it is the first available arc in probe order: every earlier probe was blocked or taken |
| TargetDistribution.SelectArcStart | Assets/3DGamekitLite/Scripts/Game/Core/TargetDistributor.cs:169-172 | the wanted arc is chosen if it is free and unblocked; otherwise the search goes on from offset 1 |
| TargetDistribution.SelectFromOffset | Assets/3DGamekitLite/Scripts/Game/Core/TargetDistributor.cs:187-202 | at each offset: the left arc if available, else the right arc if available, else the next offset |
| TargetDistribution.ProbeAtCoversEveryArc | Assets/3DGamekitLite/Scripts/Game/Core/TargetDistributor.cs:175-203 | every arc of the ring is probed at some step, whatever the wanted arc |
| TargetDistribution.SelectArcNoneIffRingExhausted | Assets/3DGamekitLite/Scripts/Game/Core/TargetDistributor.cs:207-210 | -1 exactly when no arc of the whole ring is both free and unblocked |
| TargetDistribution.ClaimChangesOnlyChosen | Assets/3DGamekitLite/Scripts/Game/Core/TargetDistributor.cs:207-213 | with -1 the arcs are unchanged; otherwise the chosen arc was free and unblocked, is now taken, and no other arc changes |
| TargetDistribution.Released | Assets/3DGamekitLite/Scripts/Game/Core/TargetDistributor.cs:114-117 | the held arc becomes free and no other arc changes |
| TargetDistribution.FollowerStepAsWritten | Assets/3DGamekitLite/Scripts/Game/Core/TargetDistributor.cs:108-122 | one iteration as written: other followers' slots unchanged, and a follower that does not ask keeps its old slot |
| TargetDistribution.DistributeAsWritten | Assets/3DGamekitLite/Scripts/Game/Core/TargetDistributor.cs:106-123 | the loop as written keeps the arc count and the inputs aligned |
| TargetDistribution.DistributeAsWrittenKeepsIdleSlots | Assets/3DGamekitLite/Scripts/Game/Core/TargetDistributor.cs:114-122 | as written, a follower that does not ask comes out with the slot it had, even though its arc is now marked free |
| TargetDistribution.AsWrittenGivesOneArcToTwoFollowers | Assets/3DGamekitLite/Scripts/Game/Core/TargetDistributor.cs:104-124 | a three-frame trace with three followers and two arcs, starting exclusive, ends with two followers holding arc 0 |
| TargetDistribution.FollowerStep | Assets/3DGamekitLite/Scripts/Game/Core/TargetDistributor.cs:108-122 | one corrected iteration: other followers' slots unchanged, and a follower that does not ask is left with -1 |
| TargetDistribution.Distribute | Assets/3DGamekitLite/Scripts/Game/Core/TargetDistributor.cs:106-123 | the corrected loop keeps the arc count and the inputs aligned |
| TargetDistribution.FollowerStepRefusesOnlyWhenFull | Assets/3DGamekitLite/Scripts/Game/Core/TargetDistributor.cs:119-122 | a follower that asks is refused (-1) exactly when no arc is available once its own arc is released |
| TargetDistribution.FollowerStepKeepsExclusive | Assets/3DGamekitLite/Scripts/Game/Core/TargetDistributor.cs:108-122 | a corrected iteration keeps "no two followers share an arc, and every held arc is marked taken" |
| TargetDistribution.DistributeKeepsExclusive | Assets/3DGamekitLite/Scripts/Game/Core/TargetDistributor.cs:104-124 | the corrected LateUpdate keeps that invariant, whoever asks |
| TargetDistribution.DistributeKeepsEarlierSlots | Assets/3DGamekitLite/Scripts/Game/Core/TargetDistributor.cs:106 | the loop from follower `i` on leaves the earlier followers' slots alone |
| TargetDistribution.DistributeClearsIdleFollowers | Assets/3DGamekitLite/Scripts/Game/Core/TargetDistributor.cs:119-122 | after the corrected LateUpdate, every follower that did not ask holds no arc |
| TargetDistribution.AsWrittenAgreesWhileIdleHoldNothing | Assets/3DGamekitLite/Scripts/Game/Core/TargetDistributor.cs:114-122 | the loop as written and the corrected loop give the same arcs and slots whenever every follower that does not ask holds no arc |
| TargetDistribution.SlotsOfAt | Assets/3DGamekitLite/Scripts/Game/Core/TargetDistributor.cs:25 | the slot sequence lists each follower's `assignedSlot` in list order |
| TargetDistribution.RequestsOfAt | Assets/3DGamekitLite/Scripts/Game/Core/TargetDistributor.cs:22 | the request sequence lists each follower's `requireSlot` in list order |
| SceneLinked.ExpandAppend | Assets/3DGamekitLite/Scripts/Game/Core/SceneLinkedSMB.cs:71-103 | the calls of consecutive hooks are the calls of each, in order |
| SceneLinked.ExpandSnoc | Assets/3DGamekitLite/Scripts/Game/Core/SceneLinkedSMB.cs:71-103 | firing one more hook appends its two calls |
| SceneLinked.ExpandPairs | Assets/3DGamekitLite/Scripts/Game/Core/SceneLinkedSMB.cs:55-103 | every hook fired becomes two adjacent calls: call `2k` is the three-argument and call `2k+1` the four-argument overload of the k-th hook |
| SceneLinked.UpdatedFlags | Assets/3DGamekitLite/Scripts/Game/Core/SceneLinkedSMB.cs:83-97 | the last-frame flag is set exactly when it was set or PreExit fires, and the first-frame flag exactly when it was set or PostEnter fires |
| SceneLinked.Rank | Assets/3DGamekitLite/Scripts/Game/Core/SceneLinkedSMB.cs:71-103 | a hook's position in the update order |
| SceneLinked.FiredInOrder | Assets/3DGamekitLite/Scripts/Game/Core/SceneLinkedSMB.cs:71-103 | the hooks of one update fire in the order TransitionToStateUpdate, NoTransitionUpdate, PreExit, PostEnter, TransitionFromStateUpdate |
| SceneLinked.FiredIffFires | Assets/3DGamekitLite/Scripts/Game/Core/SceneLinkedSMB.cs:68-103 | a hook fires in an update exactly when it is an update hook and its guard holds on the flags at the start |
| SceneLinked.FiredOnce | Assets/3DGamekitLite/Scripts/Game/Core/SceneLinkedSMB.cs:71-103 | each update hook fires once when its guard holds, and otherwise not at all |
| SceneLinked.WhenCount | Assets/3DGamekitLite/Scripts/Game/Core/SceneLinkedSMB.cs:71-103 | a guarded block contributes its hook once, only when its guard holds |
| SceneLinked.InactiveUpdateIsInert | Assets/3DGamekitLite/Scripts/Game/Core/SceneLinkedSMB.cs:68-69 | an inactive game object fires no hook and changes no flag |
| SceneLinked.PostEnterFiresOncePerEntry | Assets/3DGamekitLite/Scripts/Game/Core/SceneLinkedSMB.cs:77-97 | PostEnter fires exactly when active, not in transition and the first-frame flag is clear, and then sets it; NoTransitionUpdate fires exactly when active, not in transition and the flag was set, never together with PostEnter |
| SceneLinked.PreExitFiresOncePerExit | Assets/3DGamekitLite/Scripts/Game/Core/SceneLinkedSMB.cs:83-89 | PreExit fires exactly when active, in transition, first frame done and last frame not, and then sets the last-frame flag |
| SceneLinked.UpdateFlagsOnlyRise | Assets/3DGamekitLite/Scripts/Game/Core/SceneLinkedSMB.cs:66-104 | during an update, the flags only move from false to true |
| SceneLinked.RunCons | Assets/3DGamekitLite/Scripts/Game/Core/SceneLinkedSMB.cs:51-119 | proof helper: one unfolding of a trace into its first callback and the rest, used by the trace inductions below |
| SceneLinked.StepPreExit | Assets/3DGamekitLite/Scripts/Game/Core/SceneLinkedSMB.cs:83-115 | a callback other than Exit fires PreExit only when it sets the last-frame flag from false |
| SceneLinked.StepPostEnter | Assets/3DGamekitLite/Scripts/Game/Core/SceneLinkedSMB.cs:53-97 | a callback other than Enter fires PostEnter only when it sets the first-frame flag from false |
| SceneLinked.PreExitAtMostOnceBetweenExits | Assets/3DGamekitLite/Scripts/Game/Core/SceneLinkedSMB.cs:83-115 | between two OnStateExit calls PreExit fires at most once, and not at all if the last-frame flag was already set |
| SceneLinked.PostEnterAtMostOnceBetweenEnters | Assets/3DGamekitLite/Scripts/Game/Core/SceneLinkedSMB.cs:53-97 | between two OnStateEnter calls PostEnter fires at most once, and not at all if the first-frame flag was already set |
| SceneLinked.SceneLinkedSMB.constructor | Assets/3DGamekitLite/Scripts/Game/Core/SceneLinkedSMB.cs:14-17 | a new behaviour is unlinked with both flags false |
| SceneLinked.SceneLinkedSMB.Initialise | Assets/3DGamekitLite/Scripts/Game/Core/SceneLinkedSMB.cs:24-35 | every behaviour, in order, is linked to the scene object and started; no flag changes |
| SceneLinked.SceneLinkedSMB.InternalInitialise | Assets/3DGamekitLite/Scripts/Game/Core/SceneLinkedSMB.cs:38-42 | stores the scene object; the flags are unchanged |
| SceneLinked.SceneLinkedSMB.OnStateEnter | Assets/3DGamekitLite/Scripts/Game/Core/SceneLinkedSMB.cs:51-57 | clears the first-frame flag, leaves the last-frame flag, and fires Enter, three-argument then four-argument |
| SceneLinked.SceneLinkedSMB.OnStateUpdate | Assets/3DGamekitLite/Scripts/Game/Core/SceneLinkedSMB.cs:66-104 | the flags, and the calls (hook by hook, both overloads), are exactly those of the update step |
| SceneLinked.SceneLinkedSMB.OnStateExit | Assets/3DGamekitLite/Scripts/Game/Core/SceneLinkedSMB.cs:113-119 | clears the last-frame flag and fires Exit, three-argument then four-argument |
| GameCommands.Registered | Assets/3DGamekitLite/Packages/Interactive/Runtime/GameCommandReceiver.cs:25-33 | registering adds `t` to the dictionary's keys, if it was missing |
| GameCommands.Unregistered | Assets/3DGamekitLite/Packages/Interactive/Runtime/GameCommandReceiver.cs:36-39 | removing keeps the keys |
| GameCommands.RegisterAppends | Assets/3DGamekitLite/Packages/Interactive/Runtime/GameCommandReceiver.cs:25-33 | after Register, type `t` reaches its old handlers and then `h`; other types are unchanged |
| GameCommands.RemoveDropsOne | Assets/3DGamekitLite/Packages/Interactive/Runtime/GameCommandReceiver.cs:36-39 | after Remove, type `t` loses one `h` (none if it had none); other types are unchanged |
| GameCommands.RegisterThenRemoveRestores | Assets/3DGamekitLite/Packages/Interactive/Runtime/GameCommandReceiver.cs:25-39 | registering an `h` not yet in the list, then removing it, restores the list |
| GameCommands.GameCommandReceiver.constructor | Assets/3DGamekitLite/Packages/Interactive/Runtime/GameCommandReceiver.cs:12 | a receiver starts with an empty dictionary |
| GameCommands.GameCommandReceiver.Receive | Assets/3DGamekitLite/Packages/Interactive/Runtime/GameCommandReceiver.cs:15-22 | invokes exactly the handlers registered for `e`, in registration order and with repeats; none if `e` has no entry |
| GameCommands.GameCommandReceiver.Register | Assets/3DGamekitLite/Packages/Interactive/Runtime/GameCommandReceiver.cs:25-33 | the dictionary becomes `Registered` of the old one |
| GameCommands.GameCommandReceiver.Remove | Assets/3DGamekitLite/Packages/Interactive/Runtime/GameCommandReceiver.cs:36-39 | removes the first `h` for `t` when `t` is a key; otherwise reports KeyNotFound (the indexer throws) and nothing changes |
| SendCommands.SendClosesGates | Assets/3DGamekitLite/Packages/Interactive/Runtime/SendGameCommand.cs:41-44 | a successful send shuts the next attempt out until `coolDown` seconds have passed, and shuts a one-shot sender out for good; after that a repeating sender passes again; a suppressed attempt leaves the gates as they were |
| SendCommands.SendsAreCooledDown | Assets/3DGamekitLite/Packages/Interactive/Runtime/SendGameCommand.cs:26-44 | successful sends are at least `coolDown` apart, and the first is at least `coolDown` after the previous send (time 0 for a new sender) |
| SendCommands.AnyTwoSendsAreCooledDown | Assets/3DGamekitLite/Packages/Interactive/Runtime/SendGameCommand.cs:26-44 | with a non-negative cool-down, any two successful sends, not only consecutive ones, are at least `coolDown` apart |
| SendCommands.OneShotSendsOnce | Assets/3DGamekitLite/Packages/Interactive/Runtime/SendGameCommand.cs:41-43 | a one-shot sender sends at most once, and never once triggered |
| SendCommands.SendGameCommand.constructor | Assets/3DGamekitLite/Packages/Interactive/Runtime/SendGameCommand.cs:18-27 | a new sender is repeating with a one-second cool-down, has never sent, and its last send time is 0 |
| SendCommands.SendGameCommand.Temperature | Assets/3DGamekitLite/Packages/Interactive/Runtime/SendGameCommand.cs:30-36 | in `[0, 1]`: 1 at a send, falling linearly to 0 one second later, then 0 |
| SendCommands.SendGameCommand.Send | Assets/3DGamekitLite/Packages/Interactive/Runtime/SendGameCommand.cs:39-47 | suppressed exactly when a gate closes. Otherwise the state becomes `AfterSend`, the receiver's callbacks for `interactionType` run once, in order, and Temperature is 1. A missing receiver is reported after the state update |
| TriggerSenders.TickingOneLayer | Assets/3DGamekitLite/Packages/Interactive/Runtime/Senders/SendOnTriggerEnter.cs:11-15 | ticking a layer in the mask makes it selected and leaves every other layer alone; unticking makes it rejected and leaves the others alone |
| TriggerSenders.NothingAndEverything | Assets/3DGamekitLite/Packages/Interactive/Runtime/Senders/SendOnTriggerEnter.cs:15 | mask 0 selects no layer; the all-ones mask (-1) selects every layer |
| TriggerSenders.SendOnTriggerEnter.constructor | Assets/3DGamekitLite/Packages/Interactive/Runtime/Senders/SendOnTriggerEnter.cs:9-11 | the component holds its layer mask and the sender it inherits |
| TriggerSenders.SendOnTriggerEnter.OnTriggerEnter | Assets/3DGamekitLite/Packages/Interactive/Runtime/Senders/SendOnTriggerEnter.cs:13-19 | calls `Send` exactly when bit `layer` of the mask is set, at most once, and returns its outcome: suppressed exactly when a gate closes, otherwise the receiver's callbacks for the type (or `NoReceiver`); when the bit is clear the sender is unchanged |
| Counters.Wrap | Assets/3DGamekitLite/Packages/Interactive/Runtime/Actions/GameplayCounter.cs:29 | a C# `int` result is in range and equals the value when that is in range |
| Counters.WrapAdd | Assets/3DGamekitLite/Packages/Interactive/Runtime/Actions/GameplayCounter.cs:29 | wrapping after each increment equals wrapping once at the end |
| Counters.BranchCalls | Assets/3DGamekitLite/Packages/Interactive/Runtime/Actions/GameplayCounter.cs:32-39 | the action is called before the command, and null targets are skipped |
| Counters.InteractionCounts | Assets/3DGamekitLite/Packages/Interactive/Runtime/Actions/GameplayCounter.cs:29-41 | the count goes up by exactly 1 (from the largest `int` it wraps to the smallest); `isTriggered` is set exactly when the new count reaches the target |
| Counters.BranchSelection | Assets/3DGamekitLite/Packages/Interactive/Runtime/Actions/GameplayCounter.cs:30-41 | at or above the target, only the target-reached action and then its command are called; below it, only the increment ones |
| Counters.TargetsDoNotAffectState | Assets/3DGamekitLite/Packages/Interactive/Runtime/Actions/GameplayCounter.cs:32-39 | which targets are null changes neither the count nor `isTriggered` |
| Counters.CountAfter | Assets/3DGamekitLite/Packages/Interactive/Runtime/Actions/GameplayCounter.cs:29 | after k interactions the count is `c0 + k` reduced to an `int`, exactly `c0 + k` without overflow |
| Counters.TargetStaysReached | Assets/3DGamekitLite/Packages/Interactive/Runtime/Actions/GameplayCounter.cs:29-35 | once the target is reached, every later interaction takes the target-reached branch and keeps `isTriggered` set |
| Counters.GameplayCounter.constructor | Assets/3DGamekitLite/Packages/Interactive/Runtime/Actions/GameplayCounter.cs:8-23 | a new counter is at 0 with target 3, not triggered |
| Counters.GameplayCounter.PerformInteraction | Assets/3DGamekitLite/Packages/Interactive/Runtime/Actions/GameplayCounter.cs:26-42 | the new count, `isTriggered` and the calls made are those of `Interact`; the count stays an `int` |
| Transformers.Position | Assets/3DGamekitLite/Packages/Interactive/Runtime/Actions/SimpleTransformer.cs:81-96 | in every loop mode the position lies in `[0, 1]` |
| Transformers.InactiveStepIsInert | Assets/3DGamekitLite/Packages/Interactive/Runtime/Actions/SimpleTransformer.cs:55 | when not activated, FixedUpdate changes nothing and calls nothing |
| Transformers.ActiveStepTransforms | Assets/3DGamekitLite/Packages/Interactive/Runtime/Actions/SimpleTransformer.cs:55-79 | an active step sets `time := time + direction * dt / duration` and then the mode's position in `[0, 1]`. It passes that position to PerformTransform last. Only Once mode changes direction or enabled |
| Transformers.OnceStopsAtEnd | Assets/3DGamekitLite/Packages/Interactive/Runtime/Actions/SimpleTransformer.cs:93-102 | in Once mode, reaching time 1 gives position 1, disables the behaviour, reverses the direction and sends the stop command before the transform |
| Transformers.OnceRunsBeforeEnd | Assets/3DGamekitLite/Packages/Interactive/Runtime/Actions/SimpleTransformer.cs:96-104 | in Once mode, below time 1 direction and enabled are unchanged and nothing is sent; at or below 0 the position rests at 0 without stopping or reversing |
| Transformers.RepeatPosition | Assets/3DGamekitLite/Packages/Interactive/Runtime/Actions/SimpleTransformer.cs:88-91 | Repeat mode keeps the fractional part of the time: below 1, with period 1 |
| Transformers.PingPongPosition | Assets/3DGamekitLite/Packages/Interactive/Runtime/Actions/SimpleTransformer.cs:81-86 | PingPong mode follows the time up to 1, then falls back over the next unit; period 2 |
| Transformers.SendsAppend | Assets/3DGamekitLite/Packages/Interactive/Runtime/Actions/SimpleTransformer.cs:53-74 | sends are counted piece by piece along a run of steps |
| Transformers.OnceSendsStopAtMostOnce | Assets/3DGamekitLite/Packages/Interactive/Runtime/Actions/SimpleTransformer.cs:93-102 | in Once mode, the stop command is sent at most once over any run of physics steps. A disabled behaviour no longer changes |
| Transformers.SimpleTransformer.constructor | Assets/3DGamekitLite/Packages/Interactive/Runtime/Actions/SimpleTransformer.cs:16-28 | a new transformer is inactive, with one-second duration, at time 0 and position 0, moving forwards |
| Transformers.SimpleTransformer.PerformInteraction | Assets/3DGamekitLite/Packages/Interactive/Runtime/Actions/SimpleTransformer.cs:46-51 | sets `activate` and sends the start command if there is one; nothing else changes |
| Transformers.SimpleTransformer.FixedUpdate | Assets/3DGamekitLite/Packages/Interactive/Runtime/Actions/SimpleTransformer.cs:53-74 | the new time, position, direction and enabled, and the calls made, are those of `Advance` |
| Transformers.SimpleTransformer.LoopPingPong | Assets/3DGamekitLite/Packages/Interactive/Runtime/Actions/SimpleTransformer.cs:81-86 | position is `PingPong(time, 1)` |
| Transformers.SimpleTransformer.LoopRepeat | Assets/3DGamekitLite/Packages/Interactive/Runtime/Actions/SimpleTransformer.cs:88-91 | position is `Repeat(time, 1)` |
| Transformers.SimpleTransformer.LoopOnce | Assets/3DGamekitLite/Packages/Interactive/Runtime/Actions/SimpleTransformer.cs:93-105 | position is `Clamp01(time)`; at 1 the behaviour is disabled, the stop command is sent and the direction negated; below 1 nothing else changes |
| UnityMath.Clamp01 | Assets/3DGamekitLite/Packages/Interactive/Runtime/SendGameCommand.cs:34 | in `[0, 1]`: the identity inside, 0 below, 1 above |
| UnityMath.Repeat | Assets/3DGamekitLite/Packages/Interactive/Runtime/Actions/SimpleTransformer.cs:90 | `Mathf.Repeat` lies in `[0, len]` |
| UnityMath.PingPong | Assets/3DGamekitLite/Packages/Interactive/Runtime/Actions/SimpleTransformer.cs:84 | `Mathf.PingPong` lies in `[0, len]` |
| UnityMath.RepeatUnit | Assets/3DGamekitLite/Packages/Interactive/Runtime/Actions/SimpleTransformer.cs:90 | `Repeat(t, 1)` is `t - floor(t)`: in `[0, 1)`, the identity there, period 1 |
| UnityMath.PingPongUnit | Assets/3DGamekitLite/Packages/Interactive/Runtime/Actions/SimpleTransformer.cs:84 | `PingPong(t, 1)` is `t` on `[0, 1]` and `2 - t` on `[1, 2)`, with period 2 |
| Lists.IndexOf | Assets/3DGamekitLite/Packages/Interactive/Runtime/GameCommandReceiver.cs:38 | the first position holding `x`, or the length exactly when `x` is absent; nothing before it equals `x` |
| Lists.RemoveFirst | Assets/3DGamekitLite/Packages/Interactive/Runtime/GameCommandReceiver.cs:38 | `List.Remove`: one occurrence of `x` fewer (as a multiset), the list unchanged when `x` is absent |
| Lists.RemoveFirstAt | Assets/3DGamekitLite/Packages/Interactive/Runtime/GameCommandReceiver.cs:38 | the elements before the removed one keep their positions, and those after it move down by one |
| Lists.RemoveFirstOfAppended | Assets/3DGamekitLite/Packages/Interactive/Runtime/GameCommandReceiver.cs:38 | removing an `x` that was not in the list, after appending it, gives back the list |
| Lists.RemoveFirstKeepsDistinct | Assets/3DGamekitLite/Scripts/Game/Core/TargetDistributor.cs:97 | removing from a duplicate-free follower list keeps it duplicate-free and drops the element |

## Findings

| source | as written | input that shows it | evidently intended | confidence | as-written member | corrected member |
|---|---|---|---|---|---|---|
| Assets/3DGamekitLite/Scripts/Game/Core/TargetDistributor.cs:114-122 | LateUpdate frees the arc of every follower that holds one. A follower that no longer asks keeps `assignedSlot` pointing at the freed arc. When it asks again, it frees that arc once more, although another follower may have been given it meanwhile | Two arcs; followers B, A, C in list order; every wanted point on arc 0; no obstacle. Requests per frame, in the order `[B, A, C]`: `[F, T, F]`, then `[T, F, T]`, then `[T, T, T]`. The slots end as `[1, 0, 0]`: A and C both hold arc 0 | a follower that releases its arc and does not ask for a new one is left without an arc (`assignedSlot = -1`), so no two followers ever share an arc | not executed | TargetDistribution.AsWrittenGivesOneArcToTwoFollowers | TargetDistribution.DistributeKeepsExclusive |

The class method `LateUpdate` (through `ServeFollower`) does what the code
does: it is proved equal to the as-written loop
`TargetDistribution.DistributeAsWritten`. The corrected loop
`TargetDistribution.Distribute` clears an idle follower's slot to -1, and the
properties the design intends are proved about it: arcs stay exclusive
(`TargetDistribution.DistributeKeepsExclusive`) and idle followers hold no arc
(`TargetDistribution.DistributeClearsIdleFollowers`). The lemma
`TargetDistribution.DistributeAsWrittenKeepsIdleSlots` states the stale slot as
written. `TargetDistribution.AsWrittenAgreesWhileIdleHoldNothing` shows that the
two loops agree as long as no idle follower still holds a slot.

## Left out

- Ray casts (`Physics.Raycast`, TargetDistributor.cs:169,187,195) become a per-follower set `blocked` of arcs whose ray hits something.
- The float computation of the wanted arc from the follower's point (TargetDistributor.cs:145-159) is left out. The rounded index is an input in `[0, arcsCount]`.
- `m_WorldDirection` holds `Vector3` headings. The model keeps each heading as its yaw angle in degrees; the quaternion rotation is not modelled.
- `TargetFollower.requiredPoint` feeds only the angle computation above and is not modelled.
- TargetDistribution.TargetDistributor.GetDirection: requires `0 <= index < arcsCount`. The source indexes `m_WorldDirection` unchecked, and an out-of-range index throws `IndexOutOfRangeException`; that exception is not modelled.
- TargetDistribution.TargetDistributor.FreeIndex: requires `0 <= index < arcsCount`. The source indexes `m_FreeArcs` unchecked, and an out-of-range index throws `IndexOutOfRangeException`; that exception is not modelled.
- TargetDistribution.TargetDistributor.UnregisterFollower: requires the follower's slot to be `-1` or in range. In the source an out-of-range slot would throw when the array is indexed.
- The animator, `AnimatorStateInfo` and the layer index are left out; only the four booleans they yield are modelled. `OnStart` and every `OnSL...` hook body are empty virtual methods, so only the call is recorded.
- `GameCommandHandler`, whose `OnInteraction` the receiver stores, is not part of this model; handlers are identities. `TriggerCommand`, the base class of SendOnTriggerEnter, is not part of this model either. Its `Send` is taken to be SendGameCommand's.
- Re-entrancy during `Receive` is not modelled: the handlers are treated as calls that do not touch the receiver. In C#, a callback that changes the list being iterated (the list for the type received) makes the `foreach` throw `InvalidOperationException`. A callback that registers or removes handlers for another type, or adds a new key to the dictionary, completes normally, and later `Receive` calls see the change. Both cases are left out.
- Audio (`onSendAudio.PlayDelayed`, `onStartAudio.Play`), the `print` in `LoopOnce`, `TestPlayAudio`, `Awake`'s platform lookup, `previewPosition`, `accelCurve` and `onEndAudio` have nothing to verify and are left out.
- Floating-point rounding is not modelled: times, durations and positions are reals.
- SendCommands.SendGameCommand.Send: a missing receiver (a `NullReferenceException` after the state update) is reported as the outcome `NoReceiver`, not as an exception.
- TriggerSenders.SendOnTriggerEnter.OnTriggerEnter: the collider's layer is a 5-bit value, because the engine keeps layers in `0..31`. C#'s masking of the shift count is therefore not needed.
- Counters.TargetStaysReached: holds only while the count does not pass the largest `int`. After 2^31 interactions the count wraps to a negative value and the increment branch is taken again.
- Transformers.SimpleTransformer.FixedUpdate: requires `duration > 0`. The source divides by `duration` and does not check it.
- The engine's rule that `FixedUpdate` runs only while `enabled` is modelled as `Transformers.Tick`. Nothing in the source sets `enabled` back to true.
- `PerformTransform` is a virtual method whose overrides (SimpleTranslator and others) are not part of this model; its call is recorded as a value.
