/** How the linters gather findings while the parser library walks the
    tree: a callback runs on every visited node in order, each result is
    appended to one list, and an exception thrown by the callback ends the
    walk. The traversal itself is the library's; it is represented by the
    sequence of values the callback is invoked with. */
module Walk {
  import opened Wrappers

  /** The findings of a walk over `visits`. */
  function Collect<V, D, F>(callback: V -> Result<seq<D>, F>, visits: seq<V>): (r: Result<seq<D>, F>)
    ensures r.Failure? <==> exists i :: 0 <= i < |visits| && callback(visits[i]).Failure?
    decreases |visits|
  {
    if |visits| == 0 then Success([])
    else
      var head := callback(visits[0]);
      var tail := Collect(callback, visits[1..]);
      assert forall i :: 1 <= i < |visits| ==> visits[i] == visits[1..][i - 1];
      if head.Failure? then
        Failure(head.error)
      else if tail.Failure? then
        assert forall i :: 0 <= i < |visits| - 1 ==> visits[1..][i] == visits[i + 1];
        Failure(tail.error)
      else
        Success(head.value + tail.value)
  }

  /** Two walks one after the other: the first failure wins, otherwise the
      findings are concatenated. */
  function AndThen<D, F>(first: Result<seq<D>, F>, second: Result<seq<D>, F>): (r: Result<seq<D>, F>) {
    if first.Failure? then first
    else if second.Failure? then second
    else Success(first.value + second.value)
  }

  /** A walk over one visit yields that visit's result. */
  lemma CollectSingle<V, D, F>(callback: V -> Result<seq<D>, F>, visit: V)
    ensures Collect(callback, [visit]) == callback(visit)
  {
    assert [visit][1..] == [];
    var r := callback(visit);
    if r.Success? {
      assert r.value + [] == r.value;
    }
  }

  /** Findings follow visit order: a walk over `a + b` is the walk over `a`
      followed by the walk over `b`. */
  lemma {:induction false} CollectAppend<V, D, F>(callback: V -> Result<seq<D>, F>, a: seq<V>, b: seq<V>)
    ensures Collect(callback, a + b) == AndThen(Collect(callback, a), Collect(callback, b))
    decreases |a|
  {
    if |a| == 0 {
      assert a + b == b;
      var rb := Collect(callback, b);
      if rb.Success? {
        assert [] + rb.value == rb.value;
      }
    } else {
      assert (a + b)[0] == a[0];
      assert (a + b)[1..] == a[1..] + b;
      CollectAppend(callback, a[1..], b);
      var h := callback(a[0]);
      var ra := Collect(callback, a[1..]);
      var rb := Collect(callback, b);
      if h.Success? && ra.Success? && rb.Success? {
        assert h.value + (ra.value + rb.value) == (h.value + ra.value) + rb.value;
      }
    }
  }

  /** The walk over `[visit] + rest`. */
  lemma CollectCons<V, D, F>(callback: V -> Result<seq<D>, F>, visit: V, rest: seq<V>)
    ensures Collect(callback, [visit] + rest) == AndThen(callback(visit), Collect(callback, rest))
  {
    CollectSingle(callback, visit);
    CollectAppend(callback, [visit], rest);
  }

  /** A failed walk reports the failure of the first failing visit. */
  lemma {:induction false} CollectFirstFailure<V, D, F>(callback: V -> Result<seq<D>, F>, visits: seq<V>)
    requires Collect(callback, visits).Failure?
    ensures exists k ::
              && 0 <= k < |visits|
              && callback(visits[k]).Failure?
              && Collect(callback, visits).error == callback(visits[k]).error
              && forall i :: 0 <= i < k ==> callback(visits[i]).Success?
    decreases |visits|
  {
    if callback(visits[0]).Success? {
      var rest := visits[1..];
      CollectFirstFailure(callback, rest);
      var k :| && 0 <= k < |rest| && callback(rest[k]).Failure?
                && Collect(callback, rest).error == callback(rest[k]).error
                && forall i :: 0 <= i < k ==> callback(rest[i]).Success?;
      assert forall i :: 1 <= i < k + 1 ==> visits[i] == rest[i - 1];
      assert visits[k + 1] == rest[k];
    } else {
      assert callback(visits[0]).Failure?;
    }
  }

  /** A successful walk finds nothing exactly when no visit adds anything. */
  lemma {:induction false} CollectEmptyIff<V, D, F>(callback: V -> Result<seq<D>, F>, visits: seq<V>)
    requires Collect(callback, visits).Success?
    ensures (Collect(callback, visits).value == [])
              <==> (forall i :: 0 <= i < |visits| ==> callback(visits[i]) == Success([]))
    decreases |visits|
  {
    if |visits| > 0 {
      CollectEmptyIff(callback, visits[1..]);
      assert forall i :: 1 <= i < |visits| ==> visits[i] == visits[1..][i - 1];
      assert forall i :: 0 <= i < |visits| - 1 ==> visits[1..][i] == visits[i + 1];
    }
  }

  /** When no visit adds more than `k` findings, the walk finds at most
      `k` per visit. */
  lemma {:induction false} CollectBound<V, D, F>(callback: V -> Result<seq<D>, F>, visits: seq<V>, k: nat)
    requires forall i :: 0 <= i < |visits| ==> callback(visits[i]).Failure? || |callback(visits[i]).value| <= k
    ensures Collect(callback, visits).Success? ==> |Collect(callback, visits).value| <= k * |visits|
    decreases |visits|
  {
    if |visits| > 0 {
      assert forall i :: 0 <= i < |visits| - 1 ==> visits[1..][i] == visits[i + 1];
      CollectBound(callback, visits[1..], k);
    }
  }
}
