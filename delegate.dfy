/**
 * The `Delegate` class: a multicast registry kept as three parallel lists
 * (receiver, resolved method, method name) and a count. Every method is proved
 * against the function of module Registry that states the same operation on
 * values, through the view `Bindings()`.
 */
module Delegates {
  import opened Reflection
  import opened Registry

  class Delegate {
    var objectList: seq<Receiver>
    var methodList: seq<Method>
    var stringList: seq<string>
    var size: int

    /** The three lists have `size` entries each, and every stored method has the signature of entry 0. */
    ghost predicate Valid()
      reads this
      ensures Valid() ==> |methodList| == size && forall k :: 0 <= k < size ==> SignatureOf(methodList[k]) == SignatureOf(methodList[0])
    {
      |objectList| == size && |methodList| == size && |stringList| == size &&
      Homogeneous(Zip(objectList, methodList, stringList))
    }

    /** The entries, index by index. */
    ghost function Bindings(): (bs: seq<Binding>)
      reads this
      requires Valid()
      ensures |bs| == size
      ensures Homogeneous(bs)
    {
      Zip(objectList, methodList, stringList)
    }

    /** `new Delegate()` */
    constructor ()
      ensures Valid() && Bindings() == []
    {
      objectList, methodList, stringList, size := [], [], [], 0;
    }

    /** `new Delegate(d)`: an exact copy of `d`; a missing or empty `d` throws. */
    static method FromDelegate(d: Delegate?) returns (r: Result<Delegate>)
      requires d != null ==> d.Valid()
      ensures r.Ok? <==> d != null && d.size > 0
      ensures r.Ok? ==> fresh(r.value) && r.value.Valid() && r.value.Bindings() == d.Bindings()
      ensures r.Err? ==> r.failure == AddFrom([], if d == null then None else Some(d.Bindings())).status.failure
    {
      var created := new Delegate();
      CopyIntoEmpty(if d == null then None else Some(d.Bindings()));
      var status := created.AddDelegate(d);
      if status.Err? {
        return Err(status.failure);
      }
      return Ok(created);
    }

    /** `new Delegate(o, s)`: a registry holding the one method `s` resolves to on `o`. */
    static method FromNamed(o: Option<Receiver>, s: Option<string>) returns (r: Result<Delegate>)
      ensures r.Err? <==> Resolve(o, s).Err?
      ensures r.Err? ==> r.failure == Resolve(o, s).failure
      ensures r.Ok? ==>
                fresh(r.value) && r.value.Valid() &&
                r.value.Bindings() == [Binding(o.value, Resolve(o, s).value, s.value)]
    {
      var created := new Delegate();
      var status := created.AddNamed(o, s);
      if status.Err? {
        return Err(status.failure);
      }
      return Ok(created);
    }

    /** `addToList(o, m, s)` */
    method AddToList(o: Receiver, m: Method, s: string) returns (r: Result<()>)
      requires Valid()
      modifies this
      ensures Valid()
      ensures Outcome(Bindings(), r) == Append(old(Bindings()), Binding(o, m, s))
    {
      if size > 0 {
        if m.returnType != methodList[0].returnType {
          return Err(DelegateException(ReturnTypeMismatch));
        }
        // The parameter types are compared as sequences (Registry.AppendAsWritten
        // has the identity comparison that the source writes).
        if m.paramTypes != methodList[0].paramTypes {
          return Err(DelegateException(ParameterMismatch));
        }
      }
      ghost var before := Bindings();
      objectList := objectList + [o];
      methodList := methodList + [m];
      stringList := stringList + [s];
      size := size + 1;
      assert Zip(objectList, methodList, stringList) == before + [Binding(o, m, s)];
      r := Ok(());
    }

    /** `removeFromList(i)` */
    method RemoveFromList(i: int)
      requires Valid() && 0 <= i < size
      modifies this
      ensures Valid()
      ensures Bindings() == old(Bindings())[..i] + old(Bindings())[i + 1..]
    {
      ghost var before := Bindings();
      objectList := objectList[..i] + objectList[i + 1..];
      methodList := methodList[..i] + methodList[i + 1..];
      stringList := stringList[..i] + stringList[i + 1..];
      size := size - 1;
      ghost var after := Zip(objectList, methodList, stringList);
      assert after == before[..i] + before[i + 1..];
      forall k | 0 <= k < |after|
        ensures SignatureOf(after[k].handle) == SignatureOf(before[0].handle)
      {
        assert after[k] == before[if k < i then k else k + 1];
      }
      if |after| > 0 {
        assert after[0] == before[if i == 0 then 1 else 0];
      }
    }

    /** `add(d)`; `d` may be this registry itself only while it is empty. */
    method AddDelegate(d: Delegate?) returns (r: Result<()>)
      requires Valid()
      requires d != null ==> d.Valid()
      requires d == this ==> size == 0
      modifies this
      ensures Valid()
      ensures Outcome(Bindings(), r) ==
                AddFrom(old(Bindings()), if d == null then None else Some(old(d.Bindings())))
    {
      if d == null {
        return Err(DelegateException(NullParameter));
      } else if d.GetSize() >= 1 {
        ghost var src := d.Bindings();
        var i := 0;
        while i < d.GetSize()
          invariant Valid() && d.Valid() && d.Bindings() == src
          invariant 0 <= i <= |src|
          invariant Merge(old(Bindings()), src) == Merge(Bindings(), src[i..])
        {
          assert src[i..][0] == src[i] && src[i..][1..] == src[i + 1..];
          r := AddToList(d.GetObject(i), d.GetMethod(i), d.GetString(i));
          if r.Err? {
            return;
          }
          i := i + 1;
        }
        r := Ok(());
      } else {
        r := Err(DelegateException(EmptyDelegate));
      }
    }

    /** `add(o, s)`: the for-each keeps the last declared method named `s`. */
    method AddNamed(o: Option<Receiver>, s: Option<string>) returns (r: Result<()>)
      requires Valid()
      modifies this
      ensures Valid()
      ensures Outcome(Bindings(), r) == Bind(old(Bindings()), o, s)
    {
      if o.None? || s.None? || |s.value| == 0 {
        return Err(DelegateException(NullParameter));
      }
      var m: Option<Method> := None;
      var mList := o.value.declaredMethods;
      if |mList| == 0 {
        return Err(DelegateException(NoDeclaredMethods));
      }
      for k := 0 to |mList|
        invariant m == LastNamed(mList[..k], s.value)
      {
        assert mList[..k + 1][..k] == mList[..k];
        if mList[k].name == s.value {
          m := Some(mList[k]);
        }
      }
      assert mList[..|mList|] == mList;
      if m.None? {
        return Err(DelegateException(MethodNameNotFound));
      }
      r := AddToList(o.value, m.value, s.value);
    }

    /** `setTo(d)`: clear, then `add(d)`. */
    method SetToDelegate(d: Delegate?) returns (r: Result<()>)
      requires Valid()
      requires d != null ==> d.Valid()
      modifies this
      ensures Valid()
      ensures Outcome(Bindings(), r) ==
                AddFrom([], if d == null then None else if d == this then Some([]) else Some(old(d.Bindings())))
    {
      RemoveAll();
      r := AddDelegate(d);
    }

    /** `setTo(o, s)`: clear, then `add(o, s)`. */
    method SetToNamed(o: Option<Receiver>, s: Option<string>) returns (r: Result<()>)
      requires Valid()
      modifies this
      ensures Valid()
      ensures Outcome(Bindings(), r) == Bind([], o, s)
    {
      RemoveAll();
      r := AddNamed(o, s);
    }

    /**
     * The loop shared by both `remove` methods: the index advances after every
     * step, also after a deletion.
     */
    method RemoveEvery(key: string) returns (found: bool)
      requires Valid()
      modifies this
      ensures Valid()
      ensures Bindings() == RemovePass(old(Bindings()), key)
      ensures found <==> Named(old(Bindings()), key)
      ensures Subsequence(Bindings(), old(Bindings()))
    {
      RemovePassIsSubsequence(Bindings(), key);
      ghost var goal := RemovePass(Bindings(), key);
      ghost var original := Bindings();
      found := false;
      var i := 0;
      while i < size
        invariant Valid()
        invariant 0 <= i <= size + 1
        invariant i <= size ==> goal == Bindings()[..i] + RemovePass(Bindings()[i..], key)
        invariant i == size + 1 ==> goal == Bindings()
        invariant !found ==> i <= size && Bindings() == original
        invariant !found ==> forall k :: 0 <= k < i ==> original[k].name != key
        invariant found ==> Named(original, key)
        decreases size + 1 - i
      {
        ghost var bs := Bindings();
        if key == stringList[i] {
          RemovePassDeleteStep(bs, key, i);
          RemoveFromList(i);
          found := true;
        } else {
          RemovePassKeepStep(bs, key, i);
        }
        i := i + 1;
      }
      if i == size {
        assert Bindings()[..i] == Bindings() && Bindings()[i..] == [];
      }
    }

    /** `remove(d)`: removes by the name of `d`'s entry 0, read when the loop first runs. */
    method RemoveDelegate(d: Delegate?) returns (r: Result<()>)
      requires Valid()
      requires d != null ==> d.Valid() && d != this
      modifies this
      ensures Valid()
      ensures Outcome(Bindings(), r) ==
                UnbindLike(old(Bindings()), if d == null then None else Some(d.Bindings()))
    {
      if d == null {
        return Err(DelegateException(NullParameter));
      }
      if size == 0 {
        return Err(DelegateException(DelegateMethodNotFound));
      }
      if d.GetSize() == 0 {
        return Err(IndexOutOfBoundsException);
      }
      var found := RemoveEvery(d.GetString(0));
      if !found {
        RemovePassShrinksIffNamed(old(Bindings()), d.GetString(0));
        return Err(DelegateException(DelegateMethodNotFound));
      }
      r := Ok(());
    }

    /** `remove(o, s)`: removes by name; the receiver is only checked for null. */
    method RemoveNamed(o: Option<Receiver>, s: Option<string>) returns (r: Result<()>)
      requires Valid()
      modifies this
      ensures Valid()
      ensures Outcome(Bindings(), r) == Unbind(old(Bindings()), o, s)
    {
      if o.None? || s.None? || |s.value| == 0 {
        return Err(DelegateException(NullParameter));
      }
      var found := RemoveEvery(s.value);
      if !found {
        RemovePassShrinksIffNamed(old(Bindings()), s.value);
        return Err(DelegateException(DelegateMethodNotFound));
      }
      r := Ok(());
    }

    /** `invoke(args)`: run every entry in index order, dropping the results. */
    method Invoke(apply: Apply, args: seq<Value>) returns (r: Result<()>)
      requires Valid()
      ensures r == InvokeAll(Bindings(), apply, args)
    {
      var i := 0;
      while i < size
        invariant 0 <= i <= size
        invariant forall k :: 0 <= k < i ==> Run(Bindings()[k], apply, args).Ok?
      {
        var outcome := apply(objectList[i], methodList[i], args);
        if outcome.Err? {
          assert Run(Bindings()[i], apply, args) == outcome;
          return Err(Translate(outcome.failure));
        }
        i := i + 1;
      }
      r := Ok(());
    }

    /** `invoke()`: Java passes a null argument array, which `Method.invoke` takes as no arguments. */
    method InvokeNoArgs(apply: Apply) returns (r: Result<()>)
      requires Valid()
      ensures r == InvokeAll(Bindings(), apply, [])
    {
      r := Invoke(apply, []);
    }

    /** `call(args)`: run every entry in index order and keep the last result. */
    method Call(apply: Apply, args: seq<Value>) returns (r: Result<Option<Value>>)
      requires Valid()
      ensures r == CallAll(Bindings(), apply, args)
    {
      var returnValue: Option<Value> := None;
      var i := 0;
      while i < size
        invariant 0 <= i <= size
        invariant forall k :: 0 <= k < i ==> Run(Bindings()[k], apply, args).Ok?
        invariant returnValue == if i == 0 then None else Some(Run(Bindings()[i - 1], apply, args).value)
      {
        var outcome := apply(objectList[i], methodList[i], args);
        assert Run(Bindings()[i], apply, args) == outcome;
        if outcome.Err? {
          return Err(outcome.failure);
        }
        returnValue := Some(outcome.value);
        i := i + 1;
      }
      r := Ok(returnValue);
    }

    /** `call()`: the source passes the single argument `0`. */
    method CallNoArgs(apply: Apply) returns (r: Result<Option<Value>>)
      requires Valid()
      ensures r == CallAll(Bindings(), apply, [IntValue(0)])
    {
      r := Call(apply, [IntValue(0)]);
    }

    /** `getSize()` */
    function GetSize(): (n: int)
      reads this
      requires Valid()
      ensures n == |Bindings()|
    {
      size
    }

    /** `getString(i)` */
    function GetString(i: int): (s: string)
      reads this
      requires Valid() && 0 <= i < size
      ensures s == Bindings()[i].name
    {
      stringList[i]
    }

    /** `getMethod(i)` */
    function GetMethod(i: int): (m: Method)
      reads this
      requires Valid() && 0 <= i < size
      ensures m == Bindings()[i].handle
    {
      methodList[i]
    }

    /** `getObject(i)` */
    function GetObject(i: int): (o: Receiver)
      reads this
      requires Valid() && 0 <= i < size
      ensures o == Bindings()[i].receiver
    {
      objectList[i]
    }

    /** `removeAll()`: empties the three lists, so the next `add` sets the signature afresh. */
    method RemoveAll()
      modifies this
      ensures Valid() && Bindings() == []
    {
      objectList, methodList, stringList, size := [], [], [], 0;
    }
  }
}
