/**
 * SendOnTriggerEnter: a sender that sends when a collider enters its trigger,
 * but only for colliders on one of the layers its layer mask selects. The
 * engine's collider becomes the layer number of its game object, which the
 * engine keeps in `0..31` and so is a 5-bit value here. The mask
 * (`LayerMask.value`, a C# `int`) is held as its 32-bit pattern, so the
 * everything-mask -1 is 0xFFFF_FFFF.
 */
module TriggerSenders {
  import opened Options
  import GameCommands
  import opened SendCommands

  /** `1 << layer`: the 32-bit word with only bit `layer` set. */
  function LayerBit(layer: bv5): bv32
  {
    (1 as bv32) << layer
  }

  /** The mask selects the layer: `0 != (mask & 1 << layer)`. */
  predicate Selects(mask: bv32, layer: bv5)
  {
    mask & LayerBit(layer) != 0
  }

  /** Setting or clearing the bit of layer `l` leaves the bit of every other layer as it was. */
  lemma OtherBitsKept(mask: bv32, l: bv5, other: bv5)
    requires other != l
    ensures (mask | LayerBit(l)) & LayerBit(other) == mask & LayerBit(other)
    ensures (mask & !LayerBit(l)) & LayerBit(other) == mask & LayerBit(other)
  {
  }

  /** Setting the bit of layer `l` sets it, clearing it clears it, and the bit is never 0. */
  lemma OwnBit(mask: bv32, l: bv5)
    ensures (mask | LayerBit(l)) & LayerBit(l) == LayerBit(l)
    ensures (mask & !LayerBit(l)) & LayerBit(l) == 0
    ensures LayerBit(l) != 0
  {
  }

  /**
   * Ticking layer `l` in a mask (`mask | 1 << l`) makes the mask select `l`
   * and changes nothing for the other layers; unticking it (`mask & ~(1 << l)`)
   * makes the mask reject `l` and changes nothing for the others.
   */
  lemma TickingOneLayer(mask: bv32, l: bv5, other: bv5)
    requires other != l
    ensures Selects(mask | LayerBit(l), l)
    ensures Selects(mask | LayerBit(l), other) <==> Selects(mask, other)
    ensures !Selects(mask & !LayerBit(l), l)
    ensures Selects(mask & !LayerBit(l), other) <==> Selects(mask, other)
  {
    OtherBitsKept(mask, l, other);
    OwnBit(mask, l);
  }

  /** The mask "Nothing" (0) selects no layer and "Everything" (-1) selects every layer. */
  lemma NothingAndEverything(layer: bv5)
    ensures !Selects(0, layer)
    ensures Selects(0xFFFF_FFFF, layer)
  {
    OwnBit(0, layer);
  }

  class SendOnTriggerEnter {
    var layers: bv32
    /** The sending behaviour this component inherits. */
    var sender: SendGameCommand

    constructor (layers: bv32, sender: SendGameCommand)
      ensures this.layers == layers && this.sender == sender
    {
      this.layers := layers;
      this.sender := sender;
    }

    /**
     * A collider on `layer` entered the trigger at time `now`: when the mask
     * selects the layer, one `Send` (whose outcome is returned); otherwise
     * nothing happens at all.
     */
    method OnTriggerEnter(layer: bv5, now: real) returns (sent: Option<SendOutcome>)
      modifies sender`isTriggered, sender`lastSendTime
      ensures sent.Some? <==> Selects(layers, layer)
      ensures sent.None? ==> sender.State() == old(sender.State())
      ensures sent.Some? ==> sender.State() == AfterSend(sender.Settings(), old(sender.State()), now)
      ensures sent.Some? ==> (sent.value == Suppressed <==> !Passes(sender.Settings(), old(sender.State()), now))
      ensures sent.Some? && sent.value != Suppressed && sender.interactiveObject == null ==> sent.value == NoReceiver
      ensures sent.Some? && sent.value != Suppressed && sender.interactiveObject != null ==>
        sent.value == Delivered(GameCommands.Callbacks(sender.interactiveObject.handlers, sender.interactionType))
    {
      if layers & LayerBit(layer) != 0 {
        var outcome := sender.Send(now);
        return Some(outcome);
      }
      return None;
    }
  }
}
