/**
 Clients of the emitter that replay the package's own usage examples and the
 edge cases of its nil map and empty listener lists. Listener tokens and
 payloads are strings here; each method states the observable outcome.
 */
module EventScenarios {
  import opened EventTable
  import opened EventEmitter

  /**
   One listener on "my_event": emitting calls it with the payload, there is
   one event with one listener, and removing the event reports true and
   leaves no event and no listener.
   */
  method SingleListener(payload: string)
    returns (trace: seq<Call<string, string>>, events: nat, listeners: nat,
             removed: bool, eventsAfter: nat, listenersAfter: nat)
    ensures trace == [Call("listener", [payload])]
    ensures events == 1 && listeners == 1
    ensures removed
    ensures eventsAfter == 0 && listenersAfter == 0
  {
    var em := new Emitter<string>();
    em.On("my_event", ["listener"]);
    trace := em.Emit("my_event", [payload]);
    events, listeners := em.Len(), em.LenListeners("my_event");
    removed := em.Remove("my_event");
    eventsAfter, listenersAfter := em.Len(), em.LenListeners("my_event");
  }

  /**
   Bulk registration of three events (two listeners on "user_created", one
   each on "user_joined" and "user_left") through copyTo, then one emission
   per event: each emission reaches only the listeners of its own event, in
   their registration order.
   */
  method UserEvents(user: string, room: string)
    returns (created: seq<Call<string, string>>, joined: seq<Call<string, string>>,
             left: seq<Call<string, string>>, events: nat)
    ensures created == [Call("created-1", [user]), Call("created-2", [user])]
    ensures joined == [Call("joined", [user + " " + room])]
    ensures left == [Call("left", [user + " " + room])]
    ensures events == 3
  {
    var src := map["user_created" := ["created-1", "created-2"],
                   "user_joined" := ["joined"],
                   "user_left" := ["left"]];
    var em := new Emitter<string>();
    CopyTo(Map(src), em);
    assert em.Registered().Keys == src.Keys;
    created := em.Emit("user_created", [user]);
    joined := em.Emit("user_joined", [user + " " + room]);
    left := em.Emit("user_left", [user + " " + room]);
    events := em.Len();
  }

  /**
   The nil map and the empty listener list: a new emitter removes nothing;
   registering no listener still creates the event, which Len counts but
   which emits nothing; removing it reports false yet deletes it.
   */
  method EmptyRegistration()
    returns (removedFromNew: bool, events: nat, listeners: nat,
             trace: seq<Call<string, string>>, removed: bool, eventsAfter: nat)
    ensures !removedFromNew
    ensures events == 1 && listeners == 0
    ensures trace == []
    ensures !removed && eventsAfter == 0
  {
    var em := new Emitter<string>();
    removedFromNew := em.Remove("evt");
    em.On("evt", []);
    events, listeners := em.Len(), em.LenListeners("evt");
    trace := em.Emit("evt", ["payload"]);
    removed := em.Remove("evt");
    eventsAfter := em.Len();
  }
}
