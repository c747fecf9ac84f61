/**
 * `Array.prototype.map` with a callback that may throw: the callback runs on
 * the elements in ascending index order, and the first throw ends the whole
 * call, so no array is produced.
 */
module JsArray {
  import opened Wrappers

  /** A thrown error together with the index of the element whose callback threw it. */
  datatype Thrown<E> = Thrown(index: nat, error: E)

  /** `xs.map(f)`: one result per element in the same order, or the first throw. */
  function MapOrThrow<A, B, E>(f: A -> Result<B, E>, xs: seq<A>): (r: Result<seq<B>, Thrown<E>>)
    ensures r.Success? <==> forall p :: 0 <= p < |xs| ==> f(xs[p]).Success?
    ensures r.Success? ==> |r.value| == |xs| && forall p :: 0 <= p < |xs| ==> f(xs[p]) == Success(r.value[p])
    ensures r.Failure? ==> r.error.index < |xs| && f(xs[r.error.index]) == Failure(r.error.error)
    ensures r.Failure? ==> forall p :: 0 <= p < r.error.index ==> f(xs[p]).Success?
  {
    if xs == [] then Success([])
    else
      var head := f(xs[0]);
      if head.Failure? then Failure(Thrown(0, head.error))
      else
        var tail := MapOrThrow(f, xs[1..]);
        if tail.Failure? then
          assert forall p :: 1 <= p <= tail.error.index ==> xs[p] == xs[1..][p - 1];
          Failure(Thrown(tail.error.index + 1, tail.error.error))
        else
          var ys := [head.value] + tail.value;
          assert forall p :: 1 <= p < |xs| ==> xs[p] == xs[1..][p - 1] && ys[p] == tail.value[p - 1];
          Success(ys)
  }

  /** Mapping a concatenation whose halves both map without a throw gives the concatenation of the results. */
  lemma {:induction false} MapOrThrowAppend<A, B, E>(f: A -> Result<B, E>, xs: seq<A>, ys: seq<A>)
    requires MapOrThrow(f, xs).Success? && MapOrThrow(f, ys).Success?
    ensures MapOrThrow(f, xs + ys) == Success(MapOrThrow(f, xs).value + MapOrThrow(f, ys).value)
  {
    var zs := xs + ys;
    assert forall p :: 0 <= p < |zs| ==> zs[p] == if p < |xs| then xs[p] else ys[p - |xs|];
    var r := MapOrThrow(f, zs);
    assert r.value == MapOrThrow(f, xs).value + MapOrThrow(f, ys).value;
  }
}
