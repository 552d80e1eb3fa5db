/**
 * The part of Java reflection that the delegate registry relies on, written as
 * plain values: a resolved method is a record of its name and signature, a
 * receiver carries the methods its class declares (in the order the JVM
 * enumerates them), and calling a method is an abstract function `Apply`.
 * Exceptions become the `Failure` of a `Result`.
 */
module Reflection {

  datatype Option<+T> = None | Some(value: T)

  /** A Java class object, as `getReturnType` and `getParameterTypes` hand them out. */
  datatype TypeId = TypeId(name: string)

  /** A resolved `java.lang.reflect.Method`: its name, return type and parameter types. */
  datatype Method = Method(name: string, returnType: TypeId, paramTypes: seq<TypeId>)

  /**
   * A receiver object: its identity and the methods its runtime class declares,
   * in the order `getDeclaredMethods` returns them (an order the JVM chooses).
   */
  datatype Receiver = Receiver(id: nat, declaredMethods: seq<Method>)

  /** A boxed argument or result of a reflective call. */
  datatype Value = Null | IntValue(i: int) | StringValue(s: string) | ObjectRef(id: nat)

  /** The message a `DelegateException` carries. */
  datatype Reason =
    | NullParameter          // "Parameters must not be null ..."
    | EmptyDelegate          // "Delegate must be of size greater than or equal to 1."
    | NoDeclaredMethods      // "No declared methods found."
    | MethodNameNotFound     // "Method name not found."
    | ReturnTypeMismatch     // "Method return type mis-match ..."
    | ParameterMismatch      // "Method paramater signature mis-match ..."
    | DelegateMethodNotFound // "Delegate method not found"
    | IllegalArgument        // "Illegal Argument Exception ..."

  /** The exceptions that leave the registry's operations. */
  datatype Failure =
    | DelegateException(reason: Reason)
    | IllegalArgumentException
    | IllegalAccessException
    | InvocationTargetException
    | IndexOutOfBoundsException

  /** A Java call that either returns a value or throws. */
  datatype Result<+T> = Ok(value: T) | Err(failure: Failure)

  /**
   * `Method.invoke(receiver, args)`: what calling a method reflectively does.
   * It is left abstract: every operation that invokes takes one as a parameter.
   */
  type Apply = (Receiver, Method, seq<Value>) -> Result<Value>

  /**
   * The method that the for-each over `getDeclaredMethods()` in `add(Object, String)`
   * ends with: the last declared method whose name is `s`, or none.
   */
  function LastNamed(ms: seq<Method>, s: string): (r: Option<Method>)
    ensures r.None? <==> forall k :: 0 <= k < |ms| ==> ms[k].name != s
    ensures r.Some? ==>
      exists j :: 0 <= j < |ms| && ms[j] == r.value && ms[j].name == s &&
                  forall k :: j < k < |ms| ==> ms[k].name != s
    decreases |ms|
  {
    if ms == [] then None
    else if ms[|ms| - 1].name == s then Some(ms[|ms| - 1])
    else LastNamed(ms[..|ms| - 1], s)
  }
}
