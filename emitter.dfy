/**
 The event emitter of the go-events package (events.go): an object holding a
 possibly-nil map from event names to listener lists, updated in place by
 On and Remove, read by Emit, Len and LenListeners, and filled in bulk by
 copyTo. Listeners are opaque tokens of type L; an emission is described by
 the trace of listener calls it makes.
 */
module EventEmitter {
  import opened EventTable

  /**
   Go's `Events` type, a `map[string]EventListeners` that may be nil. A nil
   listener slice and an empty one are both the empty sequence here: the
   emitter never stores a nil slice, and copyTo only looks at lengths.
   */
  datatype Events<L> = Nil | Map(entries: Table<L>)

  /** The registrations a possibly-nil map holds: a nil map holds none. */
  function Entries<L>(e: Events<L>): (t: Table<L>)
    ensures e.Nil? ==> t == map[]
    ensures e.Map? ==> t == e.entries
  {
    match e
    case Nil => map[]
    case Map(m) => m
  }

  /** Go's `emmiter` struct, whose single field is updated in place. */
  class Emitter<L> {
    var evtListeners: Events<L>

    /** The abstract registry: what the field holds, a nil map counting as empty. */
    ghost function Registered(): Table<L>
      reads this
    {
      Entries(evtListeners)
    }

    /** New: an emitter whose map is nil, so it reports no events and no listeners. */
    constructor ()
      ensures evtListeners == Nil
      ensures Len() == 0
      ensures forall evt :: LenListeners(evt) == 0
    {
      evtListeners := Nil;
    }

    /**
     On: allocates the map if it is nil, creates the entry for `evt` if it
     is missing, then appends `listeners` to it. The entry exists afterwards
     even when no listener is given; other entries are untouched.
     */
    method On(evt: string, listeners: seq<L>)
      modifies this
      ensures evtListeners.Map?
      ensures Registered() == Appended(old(Registered()), evt, listeners)
    {
      if evtListeners.Nil? {
        evtListeners := Map(map[]);
      }
      // A missing key reads as a nil slice; a present key never holds nil.
      if evt !in evtListeners.entries {
        evtListeners := Map(evtListeners.entries[evt := []]);
      }
      evtListeners := Map(evtListeners.entries[evt := evtListeners.entries[evt] + listeners]);
    }

    /**
     Emit: calls every listener registered for `evt`, once each, in
     registration order, each with the same `data`. A nil map or an unknown
     name makes no call. The registry is not changed (no modifies clause).
     */
    method Emit<P>(evt: string, data: seq<P>) returns (trace: seq<Call<L, P>>)
      ensures |trace| == LenListeners(evt)
      ensures forall i :: 0 <= i < |trace| ==> trace[i] == Call(Lookup(Registered(), evt)[i], data)
      ensures trace == Trace(Lookup(Registered(), evt), data)
    {
      trace := [];
      if evtListeners.Nil? {
        return;
      }
      if evt in evtListeners.entries && |evtListeners.entries[evt]| > 0 {
        var listeners := evtListeners.entries[evt];
        for i := 0 to |listeners|
          invariant |trace| == i
          invariant forall j :: 0 <= j < i ==> trace[j] == Call(listeners[j], data)
        {
          trace := trace + [Call(listeners[i], data)];
        }
      }
      TraceIsPointwise(Lookup(Registered(), evt), data, trace);
    }

    /**
     Remove: deletes the entry of `evt` whatever it holds, and reports
     whether it held at least one listener. A nil map is left nil.
     */
    method Remove(evt: string) returns (removed: bool)
      modifies this
      ensures removed <==> HasListeners(old(Registered()), evt)
      ensures Registered() == Removed(old(Registered()), evt)
      ensures old(evtListeners).Nil? ==> evtListeners.Nil?
    {
      if evtListeners.Nil? {
        return false;
      }
      if evt in evtListeners.entries {
        var listeners := evtListeners.entries[evt];
        evtListeners := Map(evtListeners.entries - {evt});
        if |listeners| > 0 {
          return true;
        }
      }
      return false;
    }

    /** Len: the number of event names that are keys, including those with no listener; 0 for a nil map. */
    function Len(): (n: nat)
      reads this
      ensures n == |Registered()|
      ensures evtListeners.Nil? ==> n == 0
    {
      match evtListeners
      case Nil => 0
      case Map(m) => |m|
    }

    /** LenListeners: how many listeners `evt` has; 0 for an unknown name or a nil map. */
    function LenListeners(evt: string): (n: nat)
      reads this
      ensures n == |Lookup(Registered(), evt)|
      ensures n > 0 <==> HasListeners(Registered(), evt)
    {
      match evtListeners
      case Nil => 0
      case Map(m) => if evt in m then |m[evt]| else 0
    }
  }

  /**
   copyTo: registers every non-empty listener list of `e` into `em`, one
   listener per call of On. A nil or empty `e` is skipped, and so is a name
   whose list is empty, which therefore is not created in `em`. The names of
   `e` are visited in an unspecified order, as Go's map iteration is.
   */
  method CopyTo<L>(e: Events<L>, em: Emitter<L>)
    modifies em
    ensures em.Registered() == Copied(Entries(e), old(em.Registered()))
    ensures NonEmptyKeys(Entries(e)) == {} ==> em.evtListeners == old(em.evtListeners)
  {
    if e.Nil? || |e.entries| == 0 {
      assert Entries(e) == map[];
      CopiedEmpty(em.Registered());
      return;
    }
    var src := e.entries;
    var todo := src.Keys;
    ghost var done: set<string> := {};
    ghost var start, startField := em.Registered(), em.evtListeners;
    assert Restrict(src, done) == map[];
    CopiedEmpty(start);
    while todo != {}
      invariant todo <= src.Keys && done == src.Keys - todo
      invariant em.Registered() == Copied(Restrict(src, done), start)
      invariant NonEmptyKeys(src) == {} ==> em.evtListeners == startField
      decreases todo
    {
      var evt :| evt in todo;
      CopiedStep(src, done, evt, start);
      CopyEntry(em, evt, src[evt]);
      assert |src[evt]| > 0 ==> evt in NonEmptyKeys(src);
      todo := todo - {evt};
      done := done + {evt};
    }
    RestrictAll(src);
  }

  /**
   The body of copyTo's loop for one name: a non-empty list is registered
   one listener per call of On, in order; an empty list changes nothing.
   */
  method CopyEntry<L>(em: Emitter<L>, evt: string, listeners: seq<L>)
    modifies em
    ensures |listeners| > 0 ==> em.Registered() == Appended(old(em.Registered()), evt, listeners)
    ensures |listeners| == 0 ==> em.evtListeners == old(em.evtListeners)
  {
    if |listeners| > 0 {
      ghost var before := em.Registered();
      for i := 0 to |listeners|
        invariant i == 0 ==> em.Registered() == before
        invariant i > 0 ==> em.Registered() == Appended(before, evt, listeners[..i])
      {
        em.On(evt, [listeners[i]]);
        if i > 0 {
          AppendedTwice(before, evt, listeners[..i], [listeners[i]]);
          assert listeners[..i] + [listeners[i]] == listeners[..i + 1];
        } else {
          assert listeners[..1] == [listeners[0]];
        }
      }
      assert listeners[..|listeners|] == listeners;
    }
  }
}
