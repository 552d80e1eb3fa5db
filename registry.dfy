/**
 * The registry's behaviour as functions on the sequence of its entries. Each
 * operation of `Delegate` is stated here once, on values, together with the
 * properties it keeps; the class in module Delegates is proved against these.
 */
module Registry {
  import opened Reflection

  /** One entry: the three parallel lists of `Delegate` at one index. */
  datatype Binding = Binding(receiver: Receiver, handle: Method, name: string)

  /** What a mutating operation leaves behind: the new entries, and whether it returned or threw. */
  datatype Outcome = Outcome(state: seq<Binding>, status: Result<()>)

  /** The entries that the parallel lists `objectList`, `methodList`, `stringList` hold. */
  function Zip(os: seq<Receiver>, ms: seq<Method>, ss: seq<string>): (bs: seq<Binding>)
    requires |os| == |ms| == |ss|
    ensures |bs| == |os|
    ensures forall k :: 0 <= k < |bs| ==> bs[k] == Binding(os[k], ms[k], ss[k])
  {
    seq(|os|, k requires 0 <= k < |os| => Binding(os[k], ms[k], ss[k]))
  }

  // ---------------------------------------------------------------------------
  // Signatures

  /** What `addToList` compares between two methods. */
  datatype Signature = Signature(returnType: TypeId, paramTypes: seq<TypeId>)

  function SignatureOf(m: Method): (sig: Signature) {
    Signature(m.returnType, m.paramTypes)
  }

  /** Every entry's method has the signature of the entry at index 0. */
  ghost predicate Homogeneous(bs: seq<Binding>) {
    forall k :: 0 <= k < |bs| ==> SignatureOf(bs[k].handle) == SignatureOf(bs[0].handle)
  }

  // ---------------------------------------------------------------------------
  // addToList

  /**
   * `addToList(o, m, s)`: when the registry is not empty, the new method must have
   * the return type of entry 0 (checked first) and its parameter types; then the
   * entry goes at the end. Parameter types are compared as sequences, which is
   * what the source evidently means; `AppendAsWritten` below is the comparison
   * as the source writes it.
   */
  function Append(bs: seq<Binding>, b: Binding): (o: Outcome)
    ensures o.status.Ok? <==> bs == [] || SignatureOf(b.handle) == SignatureOf(bs[0].handle)
    ensures o.status == Err(DelegateException(ReturnTypeMismatch)) <==>
              bs != [] && b.handle.returnType != bs[0].handle.returnType
    ensures o.status.Err? ==>
              o.state == bs && o.status.failure.DelegateException? &&
              o.status.failure.reason in {ReturnTypeMismatch, ParameterMismatch}
    ensures o.status.Ok? ==> |o.state| == |bs| + 1 && o.state[..|bs|] == bs && o.state[|bs|] == b
    ensures Homogeneous(bs) ==> Homogeneous(o.state)
  {
    if |bs| > 0 && b.handle.returnType != bs[0].handle.returnType then
      Outcome(bs, Err(DelegateException(ReturnTypeMismatch)))
    else if |bs| > 0 && b.handle.paramTypes != bs[0].handle.paramTypes then
      Outcome(bs, Err(DelegateException(ParameterMismatch)))
    else
      Outcome(bs + [b], Ok(()))
  }

  /** After `removeAll` the first entry added always goes in: it sets the signature afresh. */
  lemma AppendToEmpty(b: Binding)
    ensures Append([], b) == Outcome([b], Ok(()))
    ensures Homogeneous(Append([], b).state)
  {
  }

  /**
   * The parameter-type array that `Method.getParameterTypes` returns: every call
   * hands out a new array object, so each carries an identity of its own.
   */
  datatype ParamArray = ParamArray(identity: nat, types: seq<TypeId>)

  /**
   * `addToList` as written: the parameter-type arrays are compared with
   * `Object.equals`, which on arrays is reference identity. The two calls to
   * `getParameterTypes` allocate two arrays, at the free identities `heap` and
   * `heap + 1`.
   */
  function AppendAsWritten(bs: seq<Binding>, b: Binding, heap: nat): (o: Outcome)
    ensures o.status.Err? ==> o.state == bs
  {
    if |bs| > 0 && b.handle.returnType != bs[0].handle.returnType then
      Outcome(bs, Err(DelegateException(ReturnTypeMismatch)))
    else if |bs| > 0 &&
            ParamArray(heap, b.handle.paramTypes) != ParamArray(heap + 1, bs[0].handle.paramTypes) then
      Outcome(bs, Err(DelegateException(ParameterMismatch)))
    else
      Outcome(bs + [b], Ok(()))
  }

  /**
   * As written, no second entry is ever accepted: even the very method of entry 0
   * is refused with a parameter mismatch, where the intended check accepts it.
   */
  lemma AsWrittenRefusesEverySecondEntry(bs: seq<Binding>, b: Binding, heap: nat)
    requires bs != [] && SignatureOf(b.handle) == SignatureOf(bs[0].handle)
    ensures AppendAsWritten(bs, b, heap) == Outcome(bs, Err(DelegateException(ParameterMismatch)))
    ensures Append(bs, b) == Outcome(bs + [b], Ok(()))
  {
  }

  // ---------------------------------------------------------------------------
  // add(Object, String)

  /**
   * The lookup of `add(o, s)`: the receiver and the name must be present and the
   * name non-empty, the receiver's class must declare some method, and one of
   * them must carry the name; of several, the last one enumerated wins.
   */
  function Resolve(o: Option<Receiver>, s: Option<string>): (r: Result<Method>)
    ensures r.Ok? ==> o.Some? && s.Some? && s.value != [] &&
                      r.value in o.value.declaredMethods && r.value.name == s.value
    ensures r.Ok? ==> r == Ok(LastNamed(o.value.declaredMethods, s.value).value)
    ensures r.Err? <==>
              o.None? || s.None? || s.value == [] ||
              forall k :: 0 <= k < |o.value.declaredMethods| ==> o.value.declaredMethods[k].name != s.value
  {
    if o.None? || s.None? || |s.value| == 0 then Err(DelegateException(NullParameter))
    else if |o.value.declaredMethods| == 0 then Err(DelegateException(NoDeclaredMethods))
    else match LastNamed(o.value.declaredMethods, s.value)
      case None => Err(DelegateException(MethodNameNotFound))
      case Some(m) => Ok(m)
  }

  /** `add(o, s)`: resolve the name, then `addToList`. A failure changes nothing. */
  function Bind(bs: seq<Binding>, o: Option<Receiver>, s: Option<string>): (out: Outcome)
    ensures out.status.Err? ==> out.state == bs
    ensures out.status.Ok? <==>
              Resolve(o, s).Ok? && (bs == [] || SignatureOf(Resolve(o, s).value) == SignatureOf(bs[0].handle))
    ensures out.status.Ok? ==> out.state == bs + [Binding(o.value, Resolve(o, s).value, s.value)]
    ensures Homogeneous(bs) ==> Homogeneous(out.state)
  {
    match Resolve(o, s)
    case Err(f) => Outcome(bs, Err(f))
    case Ok(m) => Append(bs, Binding(o.value, m, s.value))
  }

  /** `setTo(o, s)` clears first, so when its `add` fails the registry is left empty. */
  lemma SetToNamedFailureEmpties(o: Option<Receiver>, s: Option<string>)
    ensures Bind([], o, s).status.Err? <==> Resolve(o, s).Err?
    ensures Bind([], o, s).status.Err? ==> Bind([], o, s).state == []
    ensures Bind([], o, s).status.Ok? ==> |Bind([], o, s).state| == 1
  {
  }

  // ---------------------------------------------------------------------------
  // add(Delegate)

  /** The loop of `add(d)`: `addToList` each of `src`'s entries in turn, stopping at the first that throws. */
  function Merge(bs: seq<Binding>, src: seq<Binding>): (out: Outcome)
    ensures |bs| <= |out.state| <= |bs| + |src|
    ensures out.state[..|bs|] == bs
    ensures Homogeneous(bs) ==> Homogeneous(out.state)
    decreases |src|
  {
    if src == [] then Outcome(bs, Ok(()))
    else
      var first := Append(bs, src[0]);
      if first.status.Err? then first else Merge(first.state, src[1..])
  }

  /**
   * A merge appends a prefix of the source, in the source's order, and keeps what
   * it appended even when it then fails: it fails exactly when the prefix is not
   * the whole source, and with the error of the first entry left out.
   */
  lemma {:induction false} MergeAppendsPrefix(bs: seq<Binding>, src: seq<Binding>)
    ensures var out := Merge(bs, src);
            |bs| <= |out.state| <= |bs| + |src| &&
            out.state == bs + src[..|out.state| - |bs|] &&
            (out.status.Ok? <==> |out.state| == |bs| + |src|) &&
            (out.status.Err? ==> out.status == Append(out.state, src[|out.state| - |bs|]).status)
    ensures Homogeneous(bs) ==> Homogeneous(Merge(bs, src).state)
    decreases |src|
  {
    if src != [] {
      var first := Append(bs, src[0]);
      if first.status.Ok? {
        MergeAppendsPrefix(first.state, src[1..]);
        var out := Merge(first.state, src[1..]);
        var n := |out.state| - |first.state|;
        assert src[..n + 1] == [src[0]] + src[1..][..n];
        assert out.state == bs + src[..n + 1];
        if out.status.Err? {
          assert src[1..][n] == src[n + 1];
        }
      } else {
        assert src[..0] == [];
      }
    }
  }

  /** A merge whose entries all share one signature with the target is complete. */
  lemma {:induction false} MergeHomogeneous(bs: seq<Binding>, src: seq<Binding>)
    requires Homogeneous(bs + src)
    ensures Merge(bs, src) == Outcome(bs + src, Ok(()))
    decreases |src|
  {
    if src != [] {
      var all := bs + src;
      assert all[|bs|] == src[0];
      assert bs != [] ==> all[0] == bs[0];
      assert Append(bs, src[0]).status.Ok?;
      assert bs + [src[0]] + src[1..] == all;
      var next := bs + [src[0]];
      forall k | 0 <= k < |next + src[1..]|
        ensures SignatureOf((next + src[1..])[k].handle) == SignatureOf((next + src[1..])[0].handle)
      {
        assert (next + src[1..])[k] == all[k];
      }
      MergeHomogeneous(next, src[1..]);
    }
  }

  /**
   * `add(d)`: a missing source (`None`, Java's null) and an empty one are refused
   * before anything changes; otherwise the entries are merged.
   */
  function AddFrom(bs: seq<Binding>, src: Option<seq<Binding>>): (out: Outcome)
    ensures src.None? || src.value == [] ==> out.state == bs && out.status.Err?
    ensures out.status.Ok? <==> src.Some? && src.value != [] && out.state == bs + src.value
    ensures Homogeneous(bs) ==> Homogeneous(out.state)
  {
    if src.None? then Outcome(bs, Err(DelegateException(NullParameter)))
    else if |src.value| == 0 then Outcome(bs, Err(DelegateException(EmptyDelegate)))
    else
      MergeAppendsPrefix(bs, src.value);
      assert src.value[..|src.value|] == src.value;
      Merge(bs, src.value)
  }

  /**
   * Copying a well-formed registry into an empty one (`new Delegate(d)`,
   * `setTo(d)`) never stops part-way: it fails only for a missing or empty
   * source, which leaves the target empty.
   */
  lemma CopyIntoEmpty(src: Option<seq<Binding>>)
    requires src.Some? ==> Homogeneous(src.value)
    ensures AddFrom([], src).status.Ok? <==> src.Some? && src.value != []
    ensures AddFrom([], src).state == if src.Some? then src.value else []
  {
    if src.Some? && src.value != [] {
      assert [] + src.value == src.value;
      MergeHomogeneous([], src.value);
    }
  }

  // ---------------------------------------------------------------------------
  // remove(Object, String) and remove(Delegate)

  /**
   * The removal loop of both `remove` methods: walk the index up from 0 and,
   * where the name equals `key`, delete that entry. The index still advances
   * after a deletion, so the entry that slid into the deleted slot is passed
   * over without being examined.
   */
  function RemovePass(bs: seq<Binding>, key: string): (r: seq<Binding>)
    ensures |r| <= |bs|
    decreases |bs|
  {
    if bs == [] then []
    else if bs[0].name == key then
      (if |bs| == 1 then [] else [bs[1]] + RemovePass(bs[2..], key))
    else [bs[0]] + RemovePass(bs[1..], key)
  }

  /** One step of the removal loop at index `i` over an entry named `key`: it is deleted and the next one passed over. */
  lemma RemovePassDeleteStep(bs: seq<Binding>, key: string, i: nat)
    requires i < |bs| && bs[i].name == key
    ensures var after := bs[..i] + bs[i + 1..];
            if i + 1 < |bs| then after[..i + 1] + RemovePass(after[i + 1..], key) == bs[..i] + RemovePass(bs[i..], key)
            else after == bs[..i] + RemovePass(bs[i..], key)
  {
    var after := bs[..i] + bs[i + 1..];
    if i + 1 < |bs| {
      assert bs[i..] == [bs[i], bs[i + 1]] + bs[i + 2..];
      assert bs[i..][2..] == bs[i + 2..];
      assert after[..i + 1] == bs[..i] + [bs[i + 1]];
      assert after[i + 1..] == bs[i + 2..];
    } else {
      assert bs[i..] == [bs[i]];
    }
  }

  /** One step of the removal loop at index `i` over an entry with another name: it is kept. */
  lemma RemovePassKeepStep(bs: seq<Binding>, key: string, i: nat)
    requires i < |bs| && bs[i].name != key
    ensures bs[..i + 1] + RemovePass(bs[i + 1..], key) == bs[..i] + RemovePass(bs[i..], key)
  {
    assert bs[i..][1..] == bs[i + 1..];
    assert bs[..i + 1] == bs[..i] + [bs[i]];
  }

  /** The entries whose name is not `key`, in order: what an exhaustive removal would keep. */
  function Without(bs: seq<Binding>, key: string): (r: seq<Binding>)
    decreases |bs|
  {
    if bs == [] then []
    else if bs[0].name == key then Without(bs[1..], key)
    else [bs[0]] + Without(bs[1..], key)
  }

  /** Some entry is named `key`. */
  predicate Named(bs: seq<Binding>, key: string) {
    exists k :: 0 <= k < |bs| && bs[k].name == key
  }

  /**
   * Both `remove` methods after their arguments are checked: the pass runs, and
   * the call throws when no entry was named `key`.
   */
  function RemoveKey(bs: seq<Binding>, key: string): (out: Outcome)
    ensures out.state == RemovePass(bs, key)
    ensures out.status.Ok? <==> Named(bs, key)
    ensures out.status.Err? ==> out.state == bs && out.status == Err(DelegateException(DelegateMethodNotFound))
  {
    RemovePassShrinksIffNamed(bs, key);
    if Named(bs, key) then Outcome(RemovePass(bs, key), Ok(()))
    else Outcome(bs, Err(DelegateException(DelegateMethodNotFound)))
  }

  /** The pass removes something exactly when some entry is named `key`; otherwise it changes nothing. */
  lemma {:induction false} RemovePassShrinksIffNamed(bs: seq<Binding>, key: string)
    ensures |RemovePass(bs, key)| < |bs| <==> Named(bs, key)
    ensures !Named(bs, key) ==> RemovePass(bs, key) == bs
    decreases |bs|
  {
    if bs != [] {
      if bs[0].name == key {
        assert Named(bs, key);
      } else {
        RemovePassShrinksIffNamed(bs[1..], key);
        if Named(bs, key) {
          var k :| 0 <= k < |bs| && bs[k].name == key;
          assert bs[1..][k - 1].name == key;
        }
        if Named(bs[1..], key) {
          var k :| 0 <= k < |bs[1..]| && bs[1..][k].name == key;
          assert bs[k + 1].name == key;
        }
        if !Named(bs, key) {
          assert [bs[0]] + bs[1..] == bs;
        }
      }
    }
  }

  /**
   * No entry with another name is removed, and those entries keep their relative
   * order: the survivors with other names are exactly the original ones.
   */
  lemma {:induction false} RemovePassKeepsOtherNames(bs: seq<Binding>, key: string)
    ensures Without(RemovePass(bs, key), key) == Without(bs, key)
    decreases |bs|
  {
    if bs != [] {
      if bs[0].name == key {
        if |bs| > 1 {
          RemovePassKeepsOtherNames(bs[2..], key);
          var rest := RemovePass(bs[2..], key);
          assert ([bs[1]] + rest)[1..] == rest;
          assert bs[1..][1..] == bs[2..];
        }
      } else {
        RemovePassKeepsOtherNames(bs[1..], key);
        assert ([bs[0]] + RemovePass(bs[1..], key))[1..] == RemovePass(bs[1..], key);
      }
    }
  }

  /** The pass only deletes: what survives was in the registry, as often as it was. */
  lemma {:induction false} RemovePassOnlyDeletes(bs: seq<Binding>, key: string)
    ensures multiset(RemovePass(bs, key)) <= multiset(bs)
    decreases |bs|
  {
    if bs != [] {
      if bs[0].name == key {
        if |bs| > 1 {
          var rest := RemovePass(bs[2..], key);
          RemovePassOnlyDeletes(bs[2..], key);
          assert RemovePass(bs, key) == [bs[1]] + rest;
          assert multiset(RemovePass(bs, key)) == multiset([bs[1]]) + multiset(rest);
          assert bs == [bs[0]] + [bs[1]] + bs[2..];
          assert multiset(bs) == multiset([bs[0]]) + multiset([bs[1]]) + multiset(bs[2..]);
        }
      } else {
        var rest := RemovePass(bs[1..], key);
        RemovePassOnlyDeletes(bs[1..], key);
        assert RemovePass(bs, key) == [bs[0]] + rest;
        assert multiset(RemovePass(bs, key)) == multiset([bs[0]]) + multiset(rest);
        assert bs == [bs[0]] + bs[1..];
        assert multiset(bs) == multiset([bs[0]]) + multiset(bs[1..]);
      }
    }
  }

  /** `r` is `s` with some entries deleted: what is left keeps its order. */
  ghost predicate Subsequence(r: seq<Binding>, s: seq<Binding>)
    decreases |s|
  {
    if r == [] then true
    else if s == [] then false
    else (r[0] == s[0] && Subsequence(r[1..], s[1..])) || Subsequence(r, s[1..])
  }

  /**
   * The pass only deletes: the survivors, whatever their names, are the original
   * entries in their original relative order.
   */
  lemma {:induction false} RemovePassIsSubsequence(bs: seq<Binding>, key: string)
    ensures Subsequence(RemovePass(bs, key), bs)
    decreases |bs|
  {
    if bs != [] {
      if bs[0].name == key {
        if |bs| > 1 {
          var rest := RemovePass(bs[2..], key);
          RemovePassIsSubsequence(bs[2..], key);
          var r := [bs[1]] + rest;
          assert r[0] == bs[1..][0] && r[1..] == rest && bs[1..][1..] == bs[2..];
          assert Subsequence(r, bs[1..]);
        }
      } else {
        var rest := RemovePass(bs[1..], key);
        RemovePassIsSubsequence(bs[1..], key);
        assert ([bs[0]] + rest)[1..] == rest;
      }
    }
  }

  /** Removal keeps the shared-signature invariant. */
  lemma RemovePassKeepsHomogeneous(bs: seq<Binding>, key: string)
    requires Homogeneous(bs)
    ensures Homogeneous(RemovePass(bs, key))
  {
    var r := RemovePass(bs, key);
    RemovePassOnlyDeletes(bs, key);
    forall k | 0 <= k < |r| ensures SignatureOf(r[k].handle) == SignatureOf(bs[0].handle) {
      assert r[k] in multiset(r);
      assert r[k] in multiset(bs);
      assert r[k] in bs;
    }
  }

  /**
   * Two adjacent entries named `key`: at least one of them, or a later entry named
   * `key`, survives the pass.
   */
  lemma {:induction false} RemovePassSkipsSecondOfPair(bs: seq<Binding>, key: string, i: nat)
    requires i + 1 < |bs| && bs[i].name == key && bs[i + 1].name == key
    ensures Named(RemovePass(bs, key), key)
    decreases |bs|
  {
    if bs[0].name == key {
      var r := [bs[1]] + RemovePass(bs[2..], key);
      if i <= 1 {
        assert r[0].name == key;
      } else {
        RemovePassSkipsSecondOfPair(bs[2..], key, i - 2);
        var k :| 0 <= k < |RemovePass(bs[2..], key)| && RemovePass(bs[2..], key)[k].name == key;
        assert r[k + 1].name == key;
      }
    } else {
      RemovePassSkipsSecondOfPair(bs[1..], key, i - 1);
      var r := [bs[0]] + RemovePass(bs[1..], key);
      var k :| 0 <= k < |RemovePass(bs[1..], key)| && RemovePass(bs[1..], key)[k].name == key;
      assert r[k + 1].name == key;
    }
  }

  /**
   * The entry right after the first one named `key` is never examined: it
   * survives the pass and takes the first match's place, whatever its name.
   */
  lemma {:induction false} RemovePassSkipsAfterFirstMatch(bs: seq<Binding>, key: string, i: nat)
    requires i + 1 < |bs| && bs[i].name == key
    requires forall j :: 0 <= j < i ==> bs[j].name != key
    ensures |RemovePass(bs, key)| > i
    ensures RemovePass(bs, key)[..i] == bs[..i]
    ensures RemovePass(bs, key)[i] == bs[i + 1]
    decreases i
  {
    if i > 0 {
      RemovePassSkipsAfterFirstMatch(bs[1..], key, i - 1);
      assert bs[1..][..i - 1] == bs[1..i];
      assert bs[..i] == [bs[0]] + bs[1..i];
    }
  }

  /** No entry of `Without(bs, key)` is named `key`. */
  lemma {:induction false} WithoutHasNoKey(bs: seq<Binding>, key: string)
    ensures !Named(Without(bs, key), key)
    decreases |bs|
  {
    if bs != [] {
      WithoutHasNoKey(bs[1..], key);
      if bs[0].name != key {
        var w := Without(bs[1..], key);
        forall k | 0 <= k < |[bs[0]] + w| ensures ([bs[0]] + w)[k].name != key {
          if k > 0 { assert ([bs[0]] + w)[k] == w[k - 1]; }
        }
      }
    }
  }

  /** Two entries in a row are both named `key`. */
  predicate AdjacentPair(bs: seq<Binding>, key: string) {
    exists i :: 0 <= i < |bs| - 1 && bs[i].name == key && bs[i + 1].name == key
  }

  /**
   * The pass removes every entry named `key` exactly when no two such entries
   * stand next to each other.
   */
  lemma {:induction false} RemovePassIsFilterIffNoPair(bs: seq<Binding>, key: string)
    ensures RemovePass(bs, key) == Without(bs, key) <==> !AdjacentPair(bs, key)
    decreases |bs|
  {
    if AdjacentPair(bs, key) {
      var i :| 0 <= i < |bs| - 1 && bs[i].name == key && bs[i + 1].name == key;
      RemovePassSkipsSecondOfPair(bs, key, i);
      WithoutHasNoKey(bs, key);
    } else if bs != [] {
      if bs[0].name == key {
        if |bs| > 1 {
          assert bs[1].name != key;
          forall i | 0 <= i < |bs[2..]| - 1
            ensures !(bs[2..][i].name == key && bs[2..][i + 1].name == key)
          {
            assert bs[2..][i] == bs[i + 2] && bs[2..][i + 1] == bs[i + 3];
          }
          RemovePassIsFilterIffNoPair(bs[2..], key);
          assert bs[1..][1..] == bs[2..];
        }
      } else {
        forall i | 0 <= i < |bs[1..]| - 1
          ensures !(bs[1..][i].name == key && bs[1..][i + 1].name == key)
        {
          assert bs[1..][i] == bs[i + 1] && bs[1..][i + 1] == bs[i + 2];
        }
        RemovePassIsFilterIffNoPair(bs[1..], key);
      }
    }
  }

  /** `remove(o, s)`: the receiver must be present and the name non-empty; after that only the name matters. */
  function Unbind(bs: seq<Binding>, o: Option<Receiver>, s: Option<string>): (out: Outcome)
    ensures out.status.Ok? <==> o.Some? && s.Some? && s.value != [] && Named(bs, s.value)
    ensures out.status.Ok? ==> out.state == RemovePass(bs, s.value)
    ensures out.status.Err? ==> out.state == bs
  {
    if o.None? || s.None? || |s.value| == 0 then Outcome(bs, Err(DelegateException(NullParameter)))
    else RemoveKey(bs, s.value)
  }

  /** Which receiver is named in `remove(o, s)` makes no difference. */
  lemma UnbindIgnoresReceiver(bs: seq<Binding>, o1: Receiver, o2: Receiver, s: Option<string>)
    ensures Unbind(bs, Some(o1), s) == Unbind(bs, Some(o2), s)
  {
  }

  /**
   * `remove(d)`: the source must be present; the key is the name of its entry 0,
   * read only once the loop runs, so an empty source throws an index error when
   * this registry has entries and "not found" when it has none.
   */
  function UnbindLike(bs: seq<Binding>, src: Option<seq<Binding>>): (out: Outcome)
    ensures out.status.Ok? <==> src.Some? && src.value != [] && Named(bs, src.value[0].name)
    ensures out.status.Ok? ==> out.state == RemovePass(bs, src.value[0].name)
    ensures out.status.Err? ==> out.state == bs
  {
    if src.None? then Outcome(bs, Err(DelegateException(NullParameter)))
    else if bs == [] then Outcome(bs, Err(DelegateException(DelegateMethodNotFound)))
    else if src.value == [] then Outcome(bs, Err(IndexOutOfBoundsException))
    else RemoveKey(bs, src.value[0].name)
  }

  // ---------------------------------------------------------------------------
  // invoke and call

  /** `methodList.get(i).invoke(objectList.get(i), args)` for one entry. */
  function Run(b: Binding, apply: Apply, args: seq<Value>): (r: Result<Value>) {
    apply(b.receiver, b.handle, args)
  }

  /**
   * The index of the first entry whose call throws, or the number of entries
   * when none does: every entry before it returns normally.
   */
  function FirstFailure(bs: seq<Binding>, apply: Apply, args: seq<Value>): (n: nat)
    ensures n <= |bs|
    ensures forall k :: 0 <= k < n ==> Run(bs[k], apply, args).Ok?
    ensures n < |bs| ==> Run(bs[n], apply, args).Err?
    decreases |bs|
  {
    if bs == [] || Run(bs[0], apply, args).Err? then 0
    else 1 + FirstFailure(bs[1..], apply, args)
  }

  /**
   * `call(args)`: the entries run in index order; the first exception leaves the
   * call, otherwise the result is that of the last entry, or none (Java's null)
   * when there are no entries.
   */
  function CallAll(bs: seq<Binding>, apply: Apply, args: seq<Value>): (r: Result<Option<Value>>)
    ensures r.Ok? <==> forall k :: 0 <= k < |bs| ==> Run(bs[k], apply, args).Ok?
    ensures r.Ok? && bs == [] ==> r.value == None
    ensures r.Ok? && bs != [] ==> r.value == Some(Run(bs[|bs| - 1], apply, args).value)
    ensures r.Err? ==> exists k :: 0 <= k < |bs| && Run(bs[k], apply, args) == Err(r.failure) &&
                                   forall j :: 0 <= j < k ==> Run(bs[j], apply, args).Ok?
  {
    var n := FirstFailure(bs, apply, args);
    if n < |bs| then Err(Run(bs[n], apply, args).failure)
    else if n == 0 then Ok(None)
    else Ok(Some(Run(bs[n - 1], apply, args).value))
  }

  /** `invoke` reports an argument mismatch as a `DelegateException`; other exceptions pass through. */
  function Translate(f: Failure): (r: Failure)
    ensures r != IllegalArgumentException
    ensures f != IllegalArgumentException ==> r == f
  {
    if f == IllegalArgumentException then DelegateException(IllegalArgument) else f
  }

  /** `invoke(args)`: the entries run in index order and the results are dropped. */
  function InvokeAll(bs: seq<Binding>, apply: Apply, args: seq<Value>): (r: Result<()>)
    ensures r.Ok? <==> forall k :: 0 <= k < |bs| ==> Run(bs[k], apply, args).Ok?
    ensures r.Err? ==> exists k :: 0 <= k < |bs| && Run(bs[k], apply, args).Err? &&
                                   (forall j :: 0 <= j < k ==> Run(bs[j], apply, args).Ok?) &&
                                   r.failure == Translate(Run(bs[k], apply, args).failure)
  {
    var n := FirstFailure(bs, apply, args);
    if n < |bs| then Err(Translate(Run(bs[n], apply, args).failure)) else Ok(())
  }

  /**
   * An entry added at the end becomes the one whose result `call` returns (unless
   * an earlier entry throws), and `invoke` throws for the longer registry
   * exactly when `call` does.
   */
  lemma CallAfterAppend(bs: seq<Binding>, b: Binding, apply: Apply, args: seq<Value>)
    ensures CallAll(bs + [b], apply, args) ==
              match CallAll(bs, apply, args)
              case Err(f) => Err(f)
              case Ok(_) =>
                match Run(b, apply, args)
                case Err(f) => Err(f)
                case Ok(v) => Ok(Some(v))
    ensures InvokeAll(bs + [b], apply, args).Ok? <==> CallAll(bs + [b], apply, args).Ok?
  {
    var n := FirstFailure(bs, apply, args);
    var m := FirstFailure(bs + [b], apply, args);
    var all := bs + [b];
    if n < |bs| {
      assert all[n] == bs[n];
      assert m == n;
    } else {
      forall k | 0 <= k < |bs| ensures Run(all[k], apply, args).Ok? {
        assert all[k] == bs[k];
      }
      assert m >= |bs|;
      assert all[|bs|] == b;
    }
  }
}
