# Delegate: a verified model of a multicast method registry

`com.padgett.delegate.Delegate` lets Java code hold several "bound methods"
(a receiver object plus a method found on it by name) and call them together,
as a delegate or function pointer would. The class keeps three parallel lists
(`objectList`, `methodList`, `stringList`) and a `size` counter. On top of them
it offers:

- adding entries, either by looking a name up on a receiver or by copying
  another delegate's entries;
- removing entries by name;
- clearing and replacing the contents;
- invoking every entry in registration order, or calling them and keeping
  the last result.

Every stored method must have the return type and parameter types of the first.

The model is three Dafny modules:

- `reflection.dfy` (module `Reflection`) replaces Java reflection with values.
  A `Method` is a record of name, return type and parameter types. A `Receiver`
  carries the methods its class declares, in the JVM's enumeration order, which
  is taken as an input. `Method.invoke` is an abstract function of type `Apply`,
  passed to the invoking operations. Exceptions are the `Failure` of a `Result`.
- `registry.dfy` (module `Registry`) states each operation once, as a function on
  the sequence of entries (`seq<Binding>`). The lemmas there prove the
  properties the class relies on and promises: the shared-signature invariant,
  append-at-end, partial merges, the exact behaviour of the removal loop, and
  last-result aggregation.
- `delegate.dfy` (module `Delegates`) is the class itself. It has the three list
  fields and `size`, a `Valid()` invariant, and the source's loops with their
  invariants. Each method is proved to leave `Bindings()` (the lists read index
  by index) and its result equal to the matching `Registry` function of the old
  state.

Choices:

- The parameter-type check of `addToList` is modelled as sequence equality. The
  source compares two arrays by identity; see Findings.
- The removal loop is modelled exactly as written: the index advances after a
  deletion, so the entry that slides into the freed slot is never examined.
  Removing a name deletes every entry with it only when no two such entries are
  adjacent (`Registry.RemovePassIsFilterIffNoPair`); the model follows the code.
- The code throws `DelegateException` with a handful of messages, and the
  model's `Reason` follows those messages. `invoke` turns an
  `IllegalArgumentException` into a `DelegateException`; `call` lets it
  propagate unchanged.
- Java constructors that may throw are modelled as static methods returning
  `Result<Delegate>` (`FromDelegate`, `FromNamed`).
- Java `null` for a receiver or a name is `None`; for a delegate it is a null
  reference (`Delegate?`).
- `call` on an empty registry gives `None`, and a last entry that returns null
  (as every void method does) gives `Some(Null)`; both stand for the same Java
  `null`, which the caller cannot tell apart.

## Model

| member | source | states |
|---|---|---|
| `Reflection.LastNamed` | com/padgett/delegate/Delegate.java:64-68 | the for-each ends with the LAST declared method named `s`; none exactly when no declared method has that name |
| `Registry.Append` | com/padgett/delegate/Delegate.java:188-206 | succeeds iff the registry is empty or the method's return type and parameter types equal entry 0's; a return-type mismatch is reported first; on success the entry is added at the end, size grows by exactly 1 and earlier entries are unchanged; on failure nothing changes; the shared-signature invariant is kept |
| `Registry.AppendToEmpty` | com/padgett/delegate/Delegate.java:191 | into an empty registry any method is accepted and sets the signature afresh |
| `Registry.AppendAsWritten` | com/padgett/delegate/Delegate.java:196 | the check with the parameter arrays compared by identity, as written; a failure changes nothing |
| `Registry.AsWrittenRefusesEverySecondEntry` | com/padgett/delegate/Delegate.java:196 | as written, a method whose signature equals entry 0's is still refused with a parameter mismatch, while the intended check accepts it |
| `Registry.Resolve` | com/padgett/delegate/Delegate.java:52-72 | lookup fails iff the receiver or name is null, the name is empty, or no declared method carries the name; on success the method is declared by the receiver, has the name, and is the last such |
| `Registry.Bind` | com/padgett/delegate/Delegate.java:52-75 | `add(o, s)` fails with no change, or appends exactly the binding (o, resolved method, s); it succeeds iff the lookup succeeds and the signature fits; the invariant is kept |
| `Registry.SetToNamedFailureEmpties` | com/padgett/delegate/Delegate.java:84-87 | after the clear, `add(o, s)` fails iff the lookup fails, and then the registry is left empty; otherwise it holds one entry |
| `Registry.MergeAppendsPrefix` | com/padgett/delegate/Delegate.java:36-49 | `add(d)` appends a prefix of `d`'s entries in `d`'s order; it fails iff the prefix is not all of `d`, keeping what was appended (no rollback), with the error of the first entry refused; the invariant is kept |
| `Registry.MergeHomogeneous` | com/padgett/delegate/Delegate.java:41-43 | when all entries share one signature with the target, every entry of the source is appended and the merge succeeds |
| `Registry.CopyIntoEmpty` | com/padgett/delegate/Delegate.java:78-81 | copying a valid delegate into an empty one fails only for a null or empty source (leaving it empty) and otherwise yields an exact copy |
| `Registry.RemovePass` | com/padgett/delegate/Delegate.java:117-122 | the removal loop never makes the registry longer |
| `Registry.RemovePassShrinksIffNamed` | com/padgett/delegate/Delegate.java:97-106 | the loop removes something iff some stored name equals the key; otherwise the registry is unchanged |
| `Registry.RemovePassKeepsOtherNames` | com/padgett/delegate/Delegate.java:117-122 | no entry with a different name is removed, and those entries keep their relative order |
| `Registry.RemovePassIsSubsequence` | com/padgett/delegate/Delegate.java:117-122 | the pass only deletes: every surviving entry, whatever its name, is an original entry, and the survivors keep their original relative order |
| `Registry.RemoveKey` | com/padgett/delegate/Delegate.java:97-106 | the removal by name leaves exactly the pass's result; it succeeds iff some entry has the name, and otherwise leaves the registry unchanged with "Delegate method not found" (same logic at 117-126) |
| `Registry.Merge` | com/padgett/delegate/Delegate.java:41-43 | the loop over `d`'s entries keeps the old entries as a prefix, adds at most `d`'s size, and keeps the shared-signature invariant; what it adds is stated by `Registry.MergeAppendsPrefix` |
| `Registry.AddFrom` | com/padgett/delegate/Delegate.java:36-49 | a null or empty source fails and changes nothing; `add(d)` succeeds iff the source is non-empty and all of its entries are appended in order; the invariant is kept |
| `Registry.InvokeAll` | com/padgett/delegate/Delegate.java:133-142 | `invoke` succeeds iff every entry's call succeeds; on failure the error is the translated failure of an entry whose predecessors all returned normally, i.e. the first failing entry |
| `Registry.Translate` | com/padgett/delegate/Delegate.java:138-139 | an `IllegalArgumentException` never leaves `invoke`; every other failure passes through unchanged |
| `Registry.CallAll` | com/padgett/delegate/Delegate.java:160-168 | `call` succeeds iff every entry's call succeeds; its result is null on an empty registry and otherwise the value of the last entry's call; on failure the error is, untranslated, the failure of an entry whose predecessors all returned normally, i.e. the first failing entry |
| `Registry.RemovePassOnlyDeletes` | com/padgett/delegate/Delegate.java:117-122 | every surviving entry was stored before, no more often than before |
| `Registry.RemovePassKeepsHomogeneous` | com/padgett/delegate/Delegate.java:181-186 | removal keeps the shared-signature invariant |
| `Registry.RemovePassSkipsSecondOfPair` | com/padgett/delegate/Delegate.java:117-122 | when two adjacent entries carry the key, at least one entry with that name survives the loop |
| `Registry.RemovePassSkipsAfterFirstMatch` | com/padgett/delegate/Delegate.java:117-122 | the loop keeps every entry before the first match, deletes that match, and never examines the entry right after it: that entry, whatever its name, takes the match's index in the result |
| `Registry.RemovePassIsFilterIffNoPair` | com/padgett/delegate/Delegate.java:117-122 | the loop removes every entry with the key iff no two such entries are adjacent |
| `Registry.Unbind` | com/padgett/delegate/Delegate.java:110-128 | `remove(o, s)` succeeds iff the receiver and name are present, the name is non-empty and some stored name equals it; on success the entries are the removal loop's result, and on failure they are unchanged |
| `Registry.UnbindIgnoresReceiver` | com/padgett/delegate/Delegate.java:113-118 | which (non-null) receiver is passed to `remove(o, s)` makes no difference |
| `Registry.UnbindLike` | com/padgett/delegate/Delegate.java:90-107 | `remove(d)` succeeds iff `d` is present and non-empty and some stored name equals `d`'s entry-0 name; on success the entries are the removal loop's result for that name, and on failure they are unchanged |
| `Registry.FirstFailure` | com/padgett/delegate/Delegate.java:133-142 | entries run in index order: every entry before the first that throws returns normally, and the one there throws |
| `Registry.CallAfterAppend` | com/padgett/delegate/Delegate.java:160-168 | an entry appended at the end supplies `call`'s result unless an earlier entry throws; `invoke` and `call` fail on the same registries |
| `Delegates.Delegate.Valid` | com/padgett/delegate/Delegate.java:16-19 | the invariant the class keeps: the three parallel lists each hold `size` entries and every stored method has the return and parameter types of entry 0 (the rule `addToList` enforces at lines 188-206) |
| `Delegates.Delegate.Bindings` | com/padgett/delegate/Delegate.java:16-19 | the three lists hold `size` entries each and every stored method has entry 0's signature |
| `Delegates.Delegate.constructor` | com/padgett/delegate/Delegate.java:22-23 | a new delegate is valid and empty |
| `Delegates.Delegate.FromDelegate` | com/padgett/delegate/Delegate.java:26-28 | `new Delegate(d)` yields an exact copy of `d` and throws iff `d` is null or empty |
| `Delegates.Delegate.FromNamed` | com/padgett/delegate/Delegate.java:31-33 | `new Delegate(o, s)` throws the lookup's error, or holds exactly the one resolved binding |
| `Delegates.Delegate.AddToList` | com/padgett/delegate/Delegate.java:188-206 | the new lists and the result are those of `Registry.Append` on the old entries; `Valid()` is kept |
| `Delegates.Delegate.RemoveFromList` | com/padgett/delegate/Delegate.java:181-186 | deletes entry `i` from all three lists and decrements `size`; `Valid()` is kept |
| `Delegates.Delegate.AddDelegate` | com/padgett/delegate/Delegate.java:36-49 | the new entries and result are `add(d)`'s: null and empty sources refused with no change, otherwise the partial merge |
| `Delegates.Delegate.AddNamed` | com/padgett/delegate/Delegate.java:52-75 | the new entries and result are those of `Registry.Bind` on the old entries |
| `Delegates.Delegate.SetToDelegate` | com/padgett/delegate/Delegate.java:78-81 | clears, then adds from `d` (from an empty source when `d` is this delegate) |
| `Delegates.Delegate.SetToNamed` | com/padgett/delegate/Delegate.java:84-87 | clears, then `add(o, s)` into the empty registry |
| `Delegates.Delegate.RemoveEvery` | com/padgett/delegate/Delegate.java:117-122 | the loop leaves exactly `Registry.RemovePass` of the old entries, which is a subsequence of them, and `found` holds iff some stored name equals the key |
| `Delegates.Delegate.RemoveDelegate` | com/padgett/delegate/Delegate.java:90-107 | the new entries and result are `Registry.UnbindLike`'s, including the index error when `d` is empty and this is not |
| `Delegates.Delegate.RemoveNamed` | com/padgett/delegate/Delegate.java:110-128 | the new entries and result are `Registry.Unbind`'s |
| `Delegates.Delegate.Invoke` | com/padgett/delegate/Delegate.java:133-142 | runs the entries in index order; returns normally iff all do, else throws the first entry's exception, with an argument mismatch reported as a `DelegateException` |
| `Delegates.Delegate.InvokeNoArgs` | com/padgett/delegate/Delegate.java:147-156 | as `Invoke` with no arguments |
| `Delegates.Delegate.Call` | com/padgett/delegate/Delegate.java:160-168 | runs the entries in index order and returns the last entry's result, none when empty, or the first exception unchanged |
| `Delegates.Delegate.CallNoArgs` | com/padgett/delegate/Delegate.java:172-179 | as `Call` with the single argument `0` |
| `Delegates.Delegate.GetSize` | com/padgett/delegate/Delegate.java:209-211 | the number of entries |
| `Delegates.Delegate.GetString` | com/padgett/delegate/Delegate.java:214-216 | the name of entry `i` |
| `Delegates.Delegate.GetMethod` | com/padgett/delegate/Delegate.java:219-221 | the method of entry `i` |
| `Delegates.Delegate.GetObject` | com/padgett/delegate/Delegate.java:224-226 | the receiver of entry `i` |
| `Delegates.Delegate.RemoveAll` | com/padgett/delegate/Delegate.java:229-234 | all three lists empty and `size == 0`, so the invariant holds trivially and the next add sets a new signature |

## Left out

- Java reflection: `getClass().getDeclaredMethods()`, `Method.invoke`, `getReturnType`, `getParameterTypes` are not modelled. They are replaced by the `Method` and `Receiver` records and an abstract `Apply`. The order in which the JVM enumerates declared methods (which decides the "last wins" overload) is an input.
- Side effects of the invoked methods: `Apply` is a pure function, so the call order is visible only through which result `call` returns and which exception leaves first.
- The unchecked generic cast `(T)` in `call`: the result is the boxed `Value`.
- The text of each `DelegateException` message: one `Reason` per kind of message; the null-argument messages at lines 38, 54, 94 and 113 of com/padgett/delegate/Delegate.java share `NullParameter`.
- `invoke()` passes a null argument array; `Method.invoke` treats it as no arguments, and the model passes `[]`.
- The 32-bit width of `size`: a Java list cannot hold 2^31 entries, so `size` is an unbounded `int`.
- Delegates.Delegate.AddDelegate: `d` may be this delegate only while it is empty. As written, `add(this)` on a non-empty delegate throws the parameter mismatch on its first iteration, before appending anything, because of the identity comparison at line 196 (see Findings). Under the element-wise comparison the model adopts, each iteration would append one entry and raise `getSize()` with it, so the loop at lines 41-43 would never end; the model excludes that case rather than model a non-terminating loop.
- Delegates.Delegate.RemoveDelegate: requires `d` not to be this delegate. The name of `d`'s entry 0 is read once rather than on every iteration, which gives the same value since `d` is not changed. For `remove(this)` Java re-reads `getString(0)` from the shrinking list, so entries named `a, b, a` end as `b, a`, where a key read once would leave `b`; that case is not modelled.
- Delegates.Delegate.GetString, GetMethod, GetObject: require an index in range instead of modelling `IndexOutOfBoundsException`.
- Delegates.Delegate.FromDelegate, AddDelegate, RemoveDelegate: require the other delegate to satisfy `Valid()`, the invariant every `Delegate` keeps.
- Delegates.Delegate.RemoveAll: Java empties each list with `list.removeAll(list)` (lines 230-232 of com/padgett/delegate/Delegate.java), a bulk removal that compares elements with their own `equals`. The model assumes receivers whose `equals` keeps Java's contract: reflexive and never throwing. A receiver whose `equals` throws (a cast without an `instanceof` check, say) or is not reflexive would leave `objectList` partly full or abort the call with the other lists unchanged, giving lists of different lengths. The same assumption covers both `setTo` methods, which start with `removeAll()`. The method and name lists use `Method.equals` and `String.equals`, which keep that contract.
- Thread safety and receiver lifetime: the class has no locking and no ownership logic.

## Findings

| source | as written | input that shows it | evidently intended | confidence | as-written member | corrected member |
|---|---|---|---|---|---|---|
| com/padgett/delegate/Delegate.java:196 | the parameter-type arrays are compared with `Object.equals`, i.e. by identity, and `getParameterTypes` returns a new array on each call | adding the same receiver and method name twice: the second `add` throws "paramater signature mis-match" (`Registry.AsWrittenRefusesEverySecondEntry`) | parameter types compared element by element, as the comment at line 189 says | high; not executed (relies on OpenJDK's `Method.getParameterTypes` returning `parameterTypes.clone()`) | `Registry.AppendAsWritten` | `Registry.Append` |
