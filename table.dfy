/**
 The value-level view of an event registry: a map from event names to the
 ordered listeners registered for them, and the effect of each registry
 operation on that map. The imperative emitter in module EventEmitter is
 proved against these functions; the lemmas here relate the operations to
 each other.
 */
module EventTable {

  /** One listener invocation made by an emission: which listener ran, with which payload. */
  datatype Call<L, P> = Call(listener: L, data: seq<P>)

  /** Event name to its listeners, in registration order. */
  type Table<L> = map<string, seq<L>>

  /** The listeners of `evt`; an unknown name has none. */
  function Lookup<L>(t: Table<L>, evt: string): seq<L>
  {
    if evt in t then t[evt] else []
  }

  /** Whether `evt` is a key holding at least one listener. */
  predicate HasListeners<L>(t: Table<L>, evt: string)
  {
    evt in t && |t[evt]| > 0
  }

  /** The table after appending `ls` to the listeners of `evt`; the key exists afterwards even when `ls` is empty. */
  function Appended<L>(t: Table<L>, evt: string, ls: seq<L>): (r: Table<L>)
    ensures forall k :: k in r <==> k in t || k == evt
    ensures Lookup(r, evt) == Lookup(t, evt) + ls
    ensures forall k :: k in t && k != evt ==> r[k] == t[k]
    ensures |r| == if evt in t then |t| else |t| + 1
  {
    t[evt := Lookup(t, evt) + ls]
  }

  /** The table without the key `evt` and its listeners. */
  function Removed<L>(t: Table<L>, evt: string): (r: Table<L>)
    ensures forall k :: k in r <==> k in t && k != evt
    ensures forall k :: k in r ==> r[k] == t[k]
    ensures |r| == if evt in t then |t| - 1 else |t|
  {
    var r := t - {evt};
    assert r.Keys == t.Keys - {evt};
    r
  }

  /** The names of `src` that hold at least one listener. */
  function NonEmptyKeys<L>(src: Table<L>): set<string>
  {
    set k | k in src && |src[k]| > 0
  }

  /** `src` cut down to the names in `keys`. */
  function Restrict<L>(src: Table<L>, keys: set<string>): (r: Table<L>)
    ensures forall k :: k in r <==> k in src && k in keys
    ensures forall k :: k in r ==> r[k] == src[k]
  {
    map k | k in src && k in keys :: src[k]
  }

  /**
   The table `dst` after every non-empty listener list of `src` has been
   appended to the list of the same name. Names whose list in `src` is empty
   are not created. No order among the names of `src` is involved.
   */
  function Copied<L>(src: Table<L>, dst: Table<L>): (r: Table<L>)
    ensures forall k :: k in r <==> k in dst || HasListeners(src, k)
    ensures forall k :: Lookup(r, k) == Lookup(dst, k) + Lookup(src, k)
  {
    map k | k in dst.Keys + NonEmptyKeys(src) :: Lookup(dst, k) + Lookup(src, k)
  }

  /** The calls an emission makes: each listener once, in order, with the same payload. */
  function Trace<L, P>(ls: seq<L>, data: seq<P>): (tr: seq<Call<L, P>>)
    ensures |tr| == |ls|
  {
    if ls == [] then [] else [Call(ls[0], data)] + Trace(ls[1..], data)
  }

  // ---------------------------------------------------------------------
  // Emission traces
  // ---------------------------------------------------------------------

  /** The i-th call of a trace is the i-th listener, given the shared payload. */
  lemma {:induction false} TraceAt<L, P>(ls: seq<L>, data: seq<P>, i: nat)
    requires i < |ls|
    ensures Trace(ls, data)[i] == Call(ls[i], data)
  {
    if i > 0 {
      TraceAt(ls[1..], data, i - 1);
    }
  }

  /** A trace is exactly the sequence of calls listed pointwise. */
  lemma TraceIsPointwise<L, P>(ls: seq<L>, data: seq<P>, tr: seq<Call<L, P>>)
    requires |tr| == |ls|
    requires forall i :: 0 <= i < |tr| ==> tr[i] == Call(ls[i], data)
    ensures tr == Trace(ls, data)
  {
    forall i | 0 <= i < |tr|
      ensures tr[i] == Trace(ls, data)[i]
    {
      TraceAt(ls, data, i);
    }
  }

  /** Emitting over a concatenation of listener lists makes the two traces in turn. */
  lemma {:induction false} TraceAppend<L, P>(a: seq<L>, b: seq<L>, data: seq<P>)
    ensures Trace(a + b, data) == Trace(a, data) + Trace(b, data)
  {
    if a == [] {
      assert a + b == b;
    } else {
      assert (a + b)[0] == a[0];
      assert (a + b)[1..] == a[1..] + b;
      TraceAppend(a[1..], b, data);
    }
  }

  // ---------------------------------------------------------------------
  // Registration, removal and their interaction with emission
  // ---------------------------------------------------------------------

  /** Emitting `evt` after registering `ls` on it runs the old listeners first, then `ls`. */
  lemma EmitAfterOn<L, P>(t: Table<L>, evt: string, ls: seq<L>, data: seq<P>)
    ensures Trace(Lookup(Appended(t, evt, ls), evt), data) == Trace(Lookup(t, evt), data) + Trace(ls, data)
  {
    TraceAppend(Lookup(t, evt), ls, data);
  }

  /** Registering on one name does not change what another name emits. */
  lemma EmitOtherAfterOn<L, P>(t: Table<L>, evt: string, other: string, ls: seq<L>, data: seq<P>)
    requires other != evt
    ensures Trace(Lookup(Appended(t, evt, ls), other), data) == Trace(Lookup(t, other), data)
  {
  }

  /** Registering listeners one call at a time is the same as registering them together. */
  lemma AppendedTwice<L>(t: Table<L>, evt: string, a: seq<L>, b: seq<L>)
    ensures Appended(Appended(t, evt, a), evt, b) == Appended(t, evt, a + b)
  {
    assert Lookup(t, evt) + a + b == Lookup(t, evt) + (a + b);
  }

  /** After registering on `evt` it has listeners iff it had some before or some were given. */
  lemma HasListenersAfterOn<L>(t: Table<L>, evt: string, ls: seq<L>)
    ensures HasListeners(Appended(t, evt, ls), evt) <==> HasListeners(t, evt) || |ls| > 0
  {
  }

  /** Removing `evt` undoes every registration on it, and only on it. */
  lemma RemoveAfterOn<L>(t: Table<L>, evt: string, ls: seq<L>)
    ensures Removed(Appended(t, evt, ls), evt) == Removed(t, evt)
  {
  }

  /** After removal `evt` emits nothing, and a second removal changes nothing. */
  lemma EmitAfterRemove<L, P>(t: Table<L>, evt: string, data: seq<P>)
    ensures Trace(Lookup(Removed(t, evt), evt), data) == []
    ensures !HasListeners(Removed(t, evt), evt)
    ensures Removed(Removed(t, evt), evt) == Removed(t, evt)
  {
  }

  // ---------------------------------------------------------------------
  // Bulk registration
  // ---------------------------------------------------------------------

  /** Copying from a table with no listeners leaves the destination as it was. */
  lemma {:induction false} CopiedNothing<L>(src: Table<L>, dst: Table<L>)
    requires NonEmptyKeys(src) == {}
    ensures Copied(src, dst) == dst
  {
    var r := Copied(src, dst);
    assert r.Keys == dst.Keys;
    forall k | k in r
      ensures r[k] == dst[k]
    {
      assert k !in src || |src[k]| == 0;
    }
  }

  /** Copying from an empty table leaves the destination as it was. */
  lemma CopiedEmpty<L>(dst: Table<L>)
    ensures Copied(map[], dst) == dst
  {
    var empty: Table<L> := map[];
    assert NonEmptyKeys(empty) == {};
    CopiedNothing(empty, dst);
  }

  /** Copying the whole of `src` is copying it restricted to all its names. */
  lemma RestrictAll<L>(src: Table<L>)
    ensures Restrict(src, src.Keys) == src
  {
  }

  /**
   Copying one more name of `src` is one more registration of that name's
   listeners when they are non-empty, and nothing otherwise.
   */
  lemma {:induction false} CopiedStep<L>(src: Table<L>, done: set<string>, evt: string, dst: Table<L>)
    requires evt in src && evt !in done
    ensures |src[evt]| > 0 ==>
      Copied(Restrict(src, done + {evt}), dst) == Appended(Copied(Restrict(src, done), dst), evt, src[evt])
    ensures |src[evt]| == 0 ==>
      Copied(Restrict(src, done + {evt}), dst) == Copied(Restrict(src, done), dst)
  {
    var r0, r1 := Restrict(src, done), Restrict(src, done + {evt});
    var c0, c1 := Copied(r0, dst), Copied(r1, dst);
    var target := if |src[evt]| > 0 then Appended(c0, evt, src[evt]) else c0;
    forall k
      ensures k in c1 <==> k in target
      ensures Lookup(c1, k) == Lookup(target, k)
    {
      if k == evt {
        assert Lookup(r1, k) == src[evt];
        assert Lookup(r0, k) == [];
        assert Lookup(c1, k) == Lookup(dst, k) + src[evt];
        assert Lookup(c0, k) == Lookup(dst, k);
      } else {
        assert Lookup(r1, k) == Lookup(r0, k);
        assert HasListeners(r1, k) <==> HasListeners(r0, k);
      }
    }
    MapsEqualByLookup(c1, target);
  }

  /** A name of `src` with listeners ends up with the destination's listeners followed by the copied ones. */
  lemma CopiedListeners<L, P>(src: Table<L>, dst: Table<L>, evt: string, data: seq<P>)
    ensures Lookup(Copied(src, dst), evt) == Lookup(dst, evt) + Lookup(src, evt)
    ensures Trace(Lookup(Copied(src, dst), evt), data) == Trace(Lookup(dst, evt), data) + Trace(Lookup(src, evt), data)
    ensures evt in Copied(src, dst) <==> evt in dst || HasListeners(src, evt)
  {
    TraceAppend(Lookup(dst, evt), Lookup(src, evt), data);
  }

  /**
   Bulk registration does not depend on the order in which the names of the
   source are visited: copying two sources with disjoint names commutes, and
   equals copying their union.
   */
  lemma {:induction false} CopiedCommutes<L>(s1: Table<L>, s2: Table<L>, dst: Table<L>)
    requires s1.Keys !! s2.Keys
    ensures Copied(s2, Copied(s1, dst)) == Copied(s1 + s2, dst)
    ensures Copied(s1, Copied(s2, dst)) == Copied(s1 + s2, dst)
  {
    var a, b, c := Copied(s2, Copied(s1, dst)), Copied(s1, Copied(s2, dst)), Copied(s1 + s2, dst);
    forall k
      ensures (k in a <==> k in c) && (k in b <==> k in c)
      ensures Lookup(a, k) == Lookup(c, k) && Lookup(b, k) == Lookup(c, k)
    {
      CopiedCommutesAt(s1, s2, dst, k);
    }
    MapsEqualByLookup(a, c);
    MapsEqualByLookup(b, c);
  }

  /** The pointwise content of CopiedCommutes, for one name. */
  lemma CopiedCommutesAt<L>(s1: Table<L>, s2: Table<L>, dst: Table<L>, k: string)
    requires s1.Keys !! s2.Keys
    ensures k in Copied(s2, Copied(s1, dst)) <==> k in Copied(s1 + s2, dst)
    ensures k in Copied(s1, Copied(s2, dst)) <==> k in Copied(s1 + s2, dst)
    ensures Lookup(Copied(s2, Copied(s1, dst)), k) == Lookup(Copied(s1 + s2, dst), k)
    ensures Lookup(Copied(s1, Copied(s2, dst)), k) == Lookup(Copied(s1 + s2, dst), k)
  {
    UnionLookup(s1, s2, k);
    var l1, l2, d := Lookup(s1, k), Lookup(s2, k), Lookup(dst, k);
    assert d + l1 + l2 == d + (l1 + l2);
    assert d + l2 + l1 == d + (l2 + l1);
    assert l1 + l2 == l2 + l1 by {
      if l1 == [] {
        assert l1 + l2 == l2 && l2 + l1 == l2;
      } else {
        assert l1 + l2 == l1 && l2 + l1 == l1;
      }
    }
  }

  /** In the union of two tables with disjoint names, a name has the listeners of the table that holds it. */
  lemma UnionLookup<L>(s1: Table<L>, s2: Table<L>, k: string)
    requires s1.Keys !! s2.Keys
    ensures Lookup(s1, k) == [] || Lookup(s2, k) == []
    ensures Lookup(s1 + s2, k) == Lookup(s1, k) + Lookup(s2, k)
    ensures HasListeners(s1 + s2, k) <==> HasListeners(s1, k) || HasListeners(s2, k)
  {
  }

  /** Two tables with the same names and the same lists are equal. */
  lemma MapsEqualByLookup<L>(t: Table<L>, u: Table<L>)
    requires forall k :: k in t <==> k in u
    requires forall k :: Lookup(t, k) == Lookup(u, k)
    ensures t == u
  {
    assert t.Keys == u.Keys;
    forall k | k in t
      ensures t[k] == u[k]
    {
      assert Lookup(t, k) == Lookup(u, k);
    }
  }
}
