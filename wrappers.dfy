/** Outcome types: a parse that may fail, and a run that may raise. */
module Wrappers {
  datatype Option<+T> = None | Some(value: T) {
    function GetOr(d: T): T { if Some? then value else d }
  }

  datatype Result<+R, +E> = Success(value: R) | Failure(error: E)

  /**
   * Running steps that may raise, in order: all their values, or the error
   * of the first one that raised.
   */
  function Sequence<R, E>(rs: seq<Result<R, E>>): Result<seq<R>, E> {
    if |rs| == 0 then Success([])
    else
      match rs[0]
      case Failure(e) => Failure(e)
      case Success(v) =>
        match Sequence(rs[1..])
        case Failure(e) => Failure(e)
        case Success(vs) => Success([v] + vs)
  }

  /** When no step raises, there is one value per step, in order. */
  lemma {:induction false} SequenceValues<R, E>(rs: seq<Result<R, E>>)
    requires Sequence(rs).Success?
    ensures |Sequence(rs).value| == |rs|
    ensures forall k :: 0 <= k < |rs| ==> rs[k] == Success(Sequence(rs).value[k])
  {
    if |rs| > 0 {
      SequenceValues(rs[1..]);
      var vs := Sequence(rs).value;
      forall k | 0 <= k < |rs|
        ensures rs[k] == Success(vs[k])
      {
        if k > 0 {
          assert rs[k] == rs[1..][k - 1];
        }
      }
    }
  }

  /** The sequence fails exactly when a step fails, and then with the first failing step's error. */
  lemma {:induction false} SequenceFailure<R, E>(rs: seq<Result<R, E>>)
    ensures Sequence(rs).Failure? <==> exists k :: 0 <= k < |rs| && rs[k].Failure?
    ensures Sequence(rs).Failure? ==>
      exists k :: (0 <= k < |rs| && rs[k] == Failure(Sequence(rs).error)
        && forall k' :: 0 <= k' < k ==> rs[k'].Success?)
  {
    if |rs| > 0 {
      SequenceFailure(rs[1..]);
      if rs[0].Success? && Sequence(rs[1..]).Failure? {
        LaterFailure(rs);
      } else if rs[0].Success? {
        NoFailure(rs);
      }
    }
  }

  lemma LaterFailure<R, E>(rs: seq<Result<R, E>>)
    requires |rs| > 0 && rs[0].Success? && Sequence(rs[1..]).Failure?
    requires exists k :: (0 <= k < |rs[1..]| && rs[1..][k] == Failure(Sequence(rs[1..]).error)
        && forall k' :: 0 <= k' < k ==> rs[1..][k'].Success?)
    ensures exists k :: (0 <= k < |rs| && rs[k] == Failure(Sequence(rs[1..]).error)
        && forall k' :: 0 <= k' < k ==> rs[k'].Success?)
  {
    var rest := rs[1..];
    var k :| 0 <= k < |rest| && rest[k] == Failure(Sequence(rest).error)
      && (forall k' :: 0 <= k' < k ==> rest[k'].Success?);
    assert rs[k + 1] == rest[k];
    forall k' | 0 <= k' < k + 1
      ensures rs[k'].Success?
    {
      if k' > 0 {
        assert rs[k'] == rest[k' - 1];
      }
    }
  }

  lemma NoFailure<R, E>(rs: seq<Result<R, E>>)
    requires |rs| > 0 && rs[0].Success?
    requires forall k :: 0 <= k < |rs[1..]| ==> rs[1..][k].Success?
    ensures forall k :: 0 <= k < |rs| ==> rs[k].Success?
  {
    forall k | 0 <= k < |rs|
      ensures rs[k].Success?
    {
      if k > 0 {
        assert rs[k] == rs[1..][k - 1];
      }
    }
  }
}
