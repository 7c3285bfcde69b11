/**
 * GameCommandReceiver: a dictionary from command type to the ordered list of
 * handlers registered for it. A handler is known here only by its identity
 * (`HandlerId`): a list entry stands for the delegate `handler.OnInteraction`,
 * and two such entries are equal exactly when they come from the same handler.
 */
module GameCommands {
  import opened Lists

  /** The kinds of command a sender can send. */
  datatype GameCommandType = None | Activate | Deactivate | Open | Close | Spawn | Destroy | Start | Stop

  /** The identity of a GameCommandHandler. */
  type HandlerId = nat

  /** What `Remove` does: the handler list was found, or the indexer threw KeyNotFoundException. */
  datatype RemoveResult = Removed | KeyNotFound

  /** The handlers a command of type `t` reaches, in order; none when `t` has no entry. */
  function Callbacks(handlers: map<GameCommandType, seq<HandlerId>>, t: GameCommandType): seq<HandlerId>
  {
    if t in handlers then handlers[t] else []
  }

  /** The dictionary after `Register(t, h)`: `h` appended to the list for `t`, which is created empty if absent. */
  function Registered(handlers: map<GameCommandType, seq<HandlerId>>, t: GameCommandType, h: HandlerId): (r: map<GameCommandType, seq<HandlerId>>)
    ensures r.Keys == handlers.Keys + {t}
  {
    handlers[t := Callbacks(handlers, t) + [h]]
  }

  /** The dictionary after a successful `Remove(t, h)`: the first `h` dropped from the list for `t`. */
  function Unregistered(handlers: map<GameCommandType, seq<HandlerId>>, t: GameCommandType, h: HandlerId): (r: map<GameCommandType, seq<HandlerId>>)
    requires t in handlers
    ensures r.Keys == handlers.Keys
  {
    handlers[t := RemoveFirst(handlers[t], h)]
  }

  /**
   * After `Register(t, h)`, a command of type `t` reaches the handlers it
   * reached before and then `h`; every other command type reaches the same
   * handlers as before.
   */
  lemma RegisterAppends(handlers: map<GameCommandType, seq<HandlerId>>, t: GameCommandType, h: HandlerId)
    ensures Callbacks(Registered(handlers, t, h), t) == Callbacks(handlers, t) + [h]
    ensures forall u :: u != t ==> Callbacks(Registered(handlers, t, h), u) == Callbacks(handlers, u)
  {
  }

  /**
   * After `Remove(t, h)`, a command of type `t` reaches one `h` fewer (if it
   * reached one) and the other handlers as before; every other command type
   * reaches the same handlers as before.
   */
  lemma RemoveDropsOne(handlers: map<GameCommandType, seq<HandlerId>>, t: GameCommandType, h: HandlerId)
    requires t in handlers
    ensures multiset(Callbacks(Unregistered(handlers, t, h), t)) == multiset(Callbacks(handlers, t)) - multiset{h}
    ensures h !in Callbacks(handlers, t) ==> Callbacks(Unregistered(handlers, t, h), t) == Callbacks(handlers, t)
    ensures forall u :: u != t ==> Callbacks(Unregistered(handlers, t, h), u) == Callbacks(handlers, u)
  {
  }

  /** Registering a handler not yet in the list for `t` and then removing it restores that list. */
  lemma RegisterThenRemoveRestores(handlers: map<GameCommandType, seq<HandlerId>>, t: GameCommandType, h: HandlerId)
    requires h !in Callbacks(handlers, t)
    ensures Callbacks(Unregistered(Registered(handlers, t, h), t, h), t) == Callbacks(handlers, t)
    ensures Unregistered(Registered(handlers, t, h), t, h) == handlers[t := Callbacks(handlers, t)]
  {
    RemoveFirstOfAppended(Callbacks(handlers, t), h);
  }

  class GameCommandReceiver {
    var handlers: map<GameCommandType, seq<HandlerId>>

    /** A receiver starts with an empty dictionary. */
    constructor ()
      ensures handlers == map[]
    {
      handlers := map[];
    }

    /**
     * Invokes the callbacks registered for `e`, in registration order and with
     * repeats, and returns them in the order they were invoked. Nothing is
     * invoked when `e` has no entry.
     */
    method Receive(e: GameCommandType) returns (invoked: seq<HandlerId>)
      ensures invoked == Callbacks(handlers, e)
    {
      invoked := [];
      if e in handlers {
        var callbacks := handlers[e];
        for k := 0 to |callbacks|
          invariant invoked == callbacks[..k]
        {
          invoked := invoked + [callbacks[k]];
        }
      }
    }

    method Register(t: GameCommandType, handler: HandlerId)
      modifies this
      ensures handlers == Registered(old(handlers), t, handler)
    {
      if t !in handlers {
        handlers := handlers[t := []];
      }
      handlers := handlers[t := handlers[t] + [handler]];
    }

    /**
     * Removes the first occurrence of `handler` from the list for `t`. When `t`
     * has no entry the dictionary indexer throws and nothing changes.
     */
    method Remove(t: GameCommandType, handler: HandlerId) returns (r: RemoveResult)
      modifies this
      ensures r == Removed <==> t in old(handlers)
      ensures r == Removed ==> handlers == Unregistered(old(handlers), t, handler)
      ensures r == KeyNotFound ==> handlers == old(handlers)
    {
      if t !in handlers {
        return KeyNotFound;
      }
      handlers := handlers[t := RemoveFirst(handlers[t], handler)];
      return Removed;
    }
  }
}
