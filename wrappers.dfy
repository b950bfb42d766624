/** Optional values and the outcome of a Python call that may raise. */
module Wrappers {

  datatype Option<+T> = None | Some(value: T) {
    function GetOr(default: T): T {
      match this
      case Some(v) => v
      case None => default
    }
  }

  /** What a Python function does: it returns a value, or an exception that nothing
      in the script catches ends the run (a traceback and exit status 1). */
  datatype Outcome<+T> = Returns(value: T) | Raised

  /** Calls made one after another until the first that raises: the values of all of them
      in order, or Raised. */
  function InOrder<T>(outcomes: seq<Outcome<T>>): (r: Outcome<seq<T>>)
    ensures r.Returns? ==> |r.value| == |outcomes|
  {
    if outcomes == [] then Returns([])
    else
      var n := |outcomes| - 1;
      match InOrder(outcomes[..n])
      case Raised => Raised
      case Returns(done) =>
        match outcomes[n]
        case Raised => Raised
        case Returns(last) => Returns(done + [last])
  }

  /** Value i of a run that returned is what call i returned. */
  lemma {:induction false} InOrderAt<T>(outcomes: seq<Outcome<T>>, i: nat)
    requires InOrder(outcomes).Returns? && i < |outcomes|
    ensures Returns(InOrder(outcomes).value[i]) == outcomes[i]
  {
    var n := |outcomes| - 1;
    var front := outcomes[..n];
    if i < n {
      InOrderAt(front, i);
      assert front[i] == outcomes[i];
    }
  }

  /** One call more: its value follows those before it, or the run raises. */
  lemma InOrderStep<T>(outcomes: seq<Outcome<T>>, i: nat)
    requires i < |outcomes|
    ensures InOrder(outcomes[..i + 1])
            == match InOrder(outcomes[..i])
               case Raised => Raised
               case Returns(done) =>
                 match outcomes[i]
                 case Raised => Raised
                 case Returns(last) => Returns(done + [last])
  {
    var next := outcomes[..i + 1];
    assert next[..i] == outcomes[..i];
    assert next[i] == outcomes[i];
  }

  /** Once the first k calls raise, the whole run does. */
  lemma {:induction false} InOrderRaise<T>(outcomes: seq<Outcome<T>>, k: nat)
    requires k <= |outcomes| && InOrder(outcomes[..k]).Raised?
    ensures InOrder(outcomes).Raised?
    decreases |outcomes| - k
  {
    if k < |outcomes| {
      InOrderStep(outcomes, k);
      InOrderRaise(outcomes, k + 1);
    } else {
      assert outcomes[..k] == outcomes;
    }
  }

  /** A loop that has collected the values of the first i calls and makes call i: it raises
      with the whole run, or it has collected one value more. */
  lemma InOrderLoopStep<T>(outcomes: seq<Outcome<T>>, i: nat, done: seq<T>)
    requires i < |outcomes| && InOrder(outcomes[..i]) == Returns(done)
    ensures outcomes[i].Raised? ==> InOrder(outcomes).Raised?
    ensures outcomes[i].Returns? ==> InOrder(outcomes[..i + 1]) == Returns(done + [outcomes[i].value])
  {
    InOrderStep(outcomes, i);
    if outcomes[i].Raised? {
      InOrderRaise(outcomes, i + 1);
    }
  }

  /** A run in which no call raises returns. */
  lemma {:induction false} InOrderReturns<T>(outcomes: seq<Outcome<T>>)
    requires forall i :: 0 <= i < |outcomes| ==> outcomes[i].Returns?
    ensures InOrder(outcomes).Returns?
  {
    if outcomes != [] {
      var n := |outcomes| - 1;
      assert forall i :: 0 <= i < n ==> outcomes[..n][i] == outcomes[i];
      InOrderReturns(outcomes[..n]);
    }
  }
}
