/** Option, and Result for a computation that may raise an exception. */
module Wrappers {

  datatype Option<+T> = None | Some(value: T)

  /** A value, or the exception that interrupted its computation. */
  datatype Result<+T, +E> = Success(value: T) | Failure(error: E) {
    predicate IsFailure() {
      Failure?
    }

    function PropagateFailure<U>(): Result<U, E>
      requires Failure?
    {
      Failure(error)
    }

    function Extract(): T
      requires Success?
    {
      value
    }
  }

  /** The position of the first item on which `f` fails, or `|items|`. */
  function FirstFailure<X, T, E>(items: seq<X>, f: X -> Result<T, E>): (k: nat)
    ensures k <= |items|
    ensures forall j :: 0 <= j < k ==> f(items[j]).Success?
    ensures k < |items| ==> f(items[k]).Failure?
  {
    if items == [] || f(items[0]).Failure? then 0
    else
      assert forall j :: 1 <= j < |items| ==> items[j] == items[1..][j - 1];
      1 + FirstFailure(items[1..], f)
  }
  /** `f` applied to each item in order: every result, or the failure of the
      first item on which `f` fails (the way `tuple(map(f, items))` stops at
      the first exception). */
  function Collect<X, T, E>(items: seq<X>, f: X -> Result<T, E>): (r: Result<seq<T>, E>)
    ensures r.Success? ==> |r.value| == |items|
  {
    if items == [] then Success([])
    else
      var first := f(items[0]);
      if first.Failure? then Failure(first.error)
      else
        var rest := Collect(items[1..], f);
        if rest.Failure? then Failure(rest.error) else Success([first.value] + rest.value)
  }

  /** The collection succeeds exactly when `f` succeeds on every item, and
      then holds the results position by position. */
  lemma {:induction false} CollectElements<X, T, E>(items: seq<X>, f: X -> Result<T, E>)
    ensures Collect(items, f).Success? <==> forall i :: 0 <= i < |items| ==> f(items[i]).Success?
    ensures Collect(items, f).Success? ==>
      forall i :: 0 <= i < |items| ==> f(items[i]) == Success(Collect(items, f).value[i])
  {
    if items != [] {
      CollectElements(items[1..], f);
      assert forall i :: 1 <= i < |items| ==> items[i] == items[1..][i - 1];
    }
  }

  /** Results obtained item by item are what the collection holds. */
  lemma {:induction false} CollectAll<X, T, E>(items: seq<X>, f: X -> Result<T, E>, results: seq<T>)
    requires |results| == |items|
    requires forall i :: 0 <= i < |items| ==> f(items[i]) == Success(results[i])
    ensures Collect(items, f) == Success(results)
  {
    if items != [] {
      assert forall i :: 0 <= i < |items| - 1 ==> items[1..][i] == items[i + 1] && results[1..][i] == results[i + 1];
      CollectAll(items[1..], f, results[1..]);
      assert results == [results[0]] + results[1..];
    }
  }

  /** A failing item after succeeding ones is the first failure, and the
      collection fails with its error. */
  lemma {:induction false} CollectFailsAt<X, T, E>(items: seq<X>, f: X -> Result<T, E>, k: nat)
    requires k < |items| && f(items[k]).Failure?
    requires forall j :: 0 <= j < k ==> f(items[j]).Success?
    ensures FirstFailure(items, f) == k
    ensures Collect(items, f) == Failure(f(items[k]).error)
  {
    if k > 0 {
      assert f(items[0]).Success?;
      assert forall j :: 0 <= j < k - 1 ==> items[1..][j] == items[j + 1];
      CollectFailsAt(items[1..], f, k - 1);
    }
  }
}
