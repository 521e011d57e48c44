# go-events emitter, modelled in Dafny

This project models the in-process event emitter of the Go package `events`
(kataras/go-events, file `events.go`). An emitter keeps one field,
`evtListeners`: a map from event names to ordered lists of listener
callbacks. That map may be nil. The operations are:

- `On` registers listeners on a name.
- `Emit` calls every listener of a name with one payload.
- `Remove` drops a name and reports whether it had listeners.
- `Len` counts the names.
- `LenListeners` counts the listeners of one name.
- `New` builds an emitter whose map is nil.
- `Events.copyTo` registers a whole map into another emitter.

Files:

- `table.dfy`, module `EventTable`: the value-level view. A plain
  `map<string, seq<L>>` (`Table`). Functions give the effect of each operation on
  it (`Appended`, `Removed`, `Copied`). `Trace` lists the calls an emission
  makes. Lemmas relate the operations to each other.
- `emitter.dfy`, module `EventEmitter`: Go's `Events` type as a datatype
  with an explicit `Nil`. The `emmiter` struct is the class `Emitter`: its
  field `evtListeners` is updated in place by `On` and `Remove`, and read by
  `Emit`, `Len` and `LenListeners`. `CopyTo` is `copyTo`, with its two
  nested loops. Every method is proved against the functions of `EventTable`,
  through the ghost view `Registered()`, in which a nil map is the empty map.
- `scenarios.dfy`, module `EventScenarios`: client methods. They replay the
  package's usage examples and the nil and empty-list edge cases, and state
  the exact traces and counts.

Modelling choices:

- Listener callbacks are opaque tokens of a type parameter `L`.
- `Emit` returns the trace of calls it makes, a sequence of
  `Call(listener, data)`. It has no `modifies` clause, so it cannot change
  the emitter.
- The variadic payload `data ...interface{}` is a `seq<P>`.
- Go's nil map is the constructor `Nil`, kept distinct from an empty map,
  so that each method's nil branch is modelled as written.
- A nil listener slice and an empty one are both the empty sequence. The
  emitter never stores a nil slice: `On` replaces a missing entry with an
  empty slice before appending (events.go:61-62). `copyTo` only looks at
  lengths.

Edge cases of the code that the model keeps as written:

- `On` with no listeners creates an empty entry, which `Len` counts
  (events.go:61-64, 120).
- `Remove` on such an entry deletes it yet returns `false`
  (events.go:95-103), although the doc comment at events.go:15-16 says it
  returns true "if something has been removed".
- `events.go` has no `Once`, `RemoveListener`, `Listeners` or `Clear`.

## Model

| member | source | states |
|---|---|---|
| EventTable.Appended | events.go:57-65 | after registering `ls` on `evt`, `evt` is a key holding its old list followed by `ls` (just `ls` if it was absent), every other key and list is unchanged, and the key count grows by one exactly when `evt` was new |
| EventTable.Removed | events.go:95-97 | deleting `evt` leaves exactly the other keys with their lists, and the key count drops by one exactly when `evt` was present |
| EventTable.Trace | events.go:77-80 | an emission over a list makes exactly one call per listener in it |
| EventTable.TraceAt | events.go:77-80 | the i-th call of an emission is to the i-th registered listener, with the shared payload |
| EventTable.TraceIsPointwise | events.go:77-80 | a call list that names each listener in order with the same payload is the emission trace |
| EventTable.TraceAppend | events.go:64 | emitting over a concatenated list makes the first list's calls, then the second's |
| EventTable.EmitAfterOn | events.go:64 | after `On(evt, ls)`, emitting `evt` calls the previously registered listeners first and then `ls`, in order |
| EventTable.EmitOtherAfterOn | events.go:64 | registering on one name does not change what any other name emits |
| EventTable.AppendedTwice | events.go:34-36 | registering listeners one `On` call at a time gives the same registry as registering them in one call |
| EventTable.HasListenersAfterOn | events.go:61-64 | after `On(evt, ls)`, `evt` has listeners iff it had some before or `ls` is non-empty |
| EventTable.RemoveAfterOn | events.go:97 | `Remove` after `On` on the same name gives the same registry as `Remove` alone: it discards every registration on that name and nothing else |
| EventTable.EmitAfterRemove | events.go:90-104 | after removal the name emits nothing and has no listeners, and removing it again changes nothing |
| EventTable.Copied | events.go:29-40 | each name is a key iff it was one in the destination or has listeners in the source, and holds the destination's list followed by the source's |
| EventTable.CopiedNothing | events.go:30-33 | copying a source in which no name has a listener leaves the destination as it was |
| EventTable.CopiedEmpty | events.go:30 | copying an empty source leaves the destination as it was |
| EventTable.CopiedStep | events.go:32-37 | copying one more name of the source is one more registration of its list when the list is non-empty, and no change otherwise |
| EventTable.CopiedListeners | events.go:29-40 | after a copy, each name emits the destination's listeners and then the source's, and is a key iff it was one or the source gives it listeners |
| EventTable.CopiedCommutes | events.go:32 | copying two sources with disjoint names in either order gives the same result as copying their union, so the order in which copyTo visits names does not matter |
| EventEmitter.Emitter.constructor | events.go:43-45 | `New` gives an emitter whose map is nil, with `Len() == 0` and `LenListeners(e) == 0` for every name |
| EventEmitter.Emitter.On | events.go:57-65 | the map is allocated afterwards, and the registry is the old one with `listeners` appended to `evt`'s list (creating the key even for no listeners) |
| EventEmitter.Emitter.Emit | events.go:72-82 | the calls made are exactly `LenListeners(evt)` many; the i-th is to the i-th listener of `evt` with `data`; for a nil map or an unknown name there are none; the registry does not change |
| EventEmitter.Emitter.Remove | events.go:90-104 | returns true iff `evt` held at least one listener; afterwards `evt` is absent and every other entry is unchanged; a nil map stays nil |
| EventEmitter.Emitter.Len | events.go:116-121 | the number of keys of the registry, empty entries included; 0 for a nil map |
| EventEmitter.Emitter.LenListeners | events.go:123-133 | the length of `evt`'s list, 0 when `evt` is unknown or the map is nil; positive iff `evt` has listeners |
| EventEmitter.CopyTo | events.go:29-40 | the target's registry becomes the bulk copy of the source into it, whatever order the names are visited in; a nil source, an empty one, or one whose lists are all empty leaves the target's map exactly as it was (still nil if it was nil) |
| EventEmitter.CopyEntry | events.go:33-37 | a non-empty list is registered in order by one `On` per listener; an empty list changes nothing |
| EventScenarios.SingleListener | events_test.go:65-92 | one listener on "my_event" is called once with the payload; Len and LenListeners are 1; Remove reports true; afterwards both are 0 |
| EventScenarios.UserEvents | events_test.go:10-63 | after bulk registration of the three user events, each emission calls exactly its own event's listeners, in order, with its payload, and Len is 3 |
| EventScenarios.EmptyRegistration | events.go:57-121 | Remove on a new emitter reports false; On with no listeners creates a key that Len counts, that has no listeners and emits nothing; Remove on it reports false yet deletes it |

## Left out

- The package-level functions `On`, `Emit`, `Remove`, `Len` and `LenListeners`, and the shared `defaultEmmiter` (events.go:47-55, 68-70, 86-88, 106-114). They only forward to one emitter, so they add nothing to model.
- The `EventEmmiter` interface (events.go:10-22): `CopyTo` takes an `Emitter` object directly, without interface dispatch.
- The bodies of listener callbacks: they are arbitrary Go closures. Listeners are opaque tokens, and `Emit` returns the calls it would make. The trace presumes that each listener returns normally and does not write into the shared `data` slice: in Go a panicking listener, or a nil func stored by `On(evt, nil)`, ends the loop at events.go:79 early, and a listener that writes into `data` changes what later listeners receive.
- Listeners that call back into the emitter while `Emit` is iterating. What they would see depends on Go's slice-header capture, and the source states no behaviour for it.
- The order in which Go iterates a map in `copyTo`. It is unspecified, so the model picks names nondeterministically, and `CopiedCommutes` shows that the result does not depend on the order.
- Concurrency: the source has no locks.
- The newer generic API that `events_test.go` exercises: `Once`, `AddListener`, `RemoveListener`, `ListenerCount`, `Listeners`, `Clear`, `RemoveAllListeners`, typed `Listener[T]`. `events.go` does not contain it. The scenarios use `Remove` where the test calls `RemoveAllListeners` and `LenListeners` where it calls `ListenerCount`. `UserEvents` registers the example's events through `CopyTo`, one `On` per listener, where the example calls `On(evt, listeners...)` once per event; `AppendedTwice` shows the two give the same registry. The test's printed output is I/O and is left out.
- Integer width: `Len` and `LenListeners` return an unbounded `nat`. Go's `int` could in principle overflow, but only with more keys than memory can hold.
