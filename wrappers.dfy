/** Failure-carrying values shared by the other modules. */
module Wrappers {
  datatype Option<+T> = None | Some(value: T)

  datatype Result<+R, +E> = Success(value: R) | Failure(error: E)

  /**
   * Calls `f` on each element in order and collects the results; the first
   * failure ends the sequence of calls and is the result of the whole.
   */
  function MapAll<X, Y, E>(xs: seq<X>, f: X -> Result<Y, E>): (r: Result<seq<Y>, E>)
    ensures r.Success? ==> |r.value| == |xs|
    ensures xs == [] ==> r == Success([])
  {
    if xs == [] then Success([])
    else
      match f(xs[0])
      case Failure(e) => Failure(e)
      case Success(y) =>
        match MapAll(xs[1..], f)
        case Failure(e) => Failure(e)
        case Success(ys) => Success([y] + ys)
  }

  /** MapAll over a concatenation runs over the first part, then the second. */
  lemma {:induction false} MapAllAppend<X, Y, E>(a: seq<X>, b: seq<X>, f: X -> Result<Y, E>)
    ensures MapAll(a, f).Failure? ==> MapAll(a + b, f) == MapAll(a, f)
    ensures MapAll(a, f).Success? && MapAll(b, f).Failure? ==> MapAll(a + b, f) == MapAll(b, f)
    ensures MapAll(a, f).Success? && MapAll(b, f).Success? ==>
              MapAll(a + b, f) == Success(MapAll(a, f).value + MapAll(b, f).value)
  {
    if a == [] {
      assert a + b == b;
      if MapAll(b, f).Success? {
        assert MapAll(a, f).value + MapAll(b, f).value == MapAll(b, f).value;
      }
    } else {
      assert (a + b)[0] == a[0];
      assert (a + b)[1..] == a[1..] + b;
      MapAllAppend(a[1..], b, f);
      if MapAll(a, f).Success? && MapAll(b, f).Success? {
        var y := f(a[0]).value;
        assert [y] + (MapAll(a[1..], f).value + MapAll(b, f).value)
            == ([y] + MapAll(a[1..], f).value) + MapAll(b, f).value;
      }
    }
  }

  /** One more successful call extends the results by one. */
  lemma MapAllSnoc<X, Y, E>(a: seq<X>, x: X, f: X -> Result<Y, E>)
    requires MapAll(a, f).Success? && f(x).Success?
    ensures MapAll(a + [x], f) == Success(MapAll(a, f).value + [f(x).value])
  {
    assert [x][0] == x && [x][1..] == [];
    assert MapAll([x][1..], f) == Success([]);
    assert [f(x).value] + [] == [f(x).value];
    assert MapAll([x], f) == Success([f(x).value]);
    MapAllAppend(a, [x], f);
  }

  /** After successful calls, a failing call decides the whole result, whatever follows. */
  lemma MapAllStopsAt<X, Y, E>(a: seq<X>, x: X, rest: seq<X>, f: X -> Result<Y, E>)
    requires MapAll(a, f).Success? && f(x).Failure?
    ensures MapAll(a + [x] + rest, f) == Failure(f(x).error)
  {
    MapAllAppend(a, [x] + rest, f);
    assert ([x] + rest)[0] == x;
    assert a + [x] + rest == a + ([x] + rest);
  }

  /** A successful MapAll has one result per element, each the element's own. */
  lemma {:induction false} MapAllPointwise<X, Y, E>(xs: seq<X>, f: X -> Result<Y, E>)
    requires MapAll(xs, f).Success?
    ensures |MapAll(xs, f).value| == |xs|
    ensures forall n :: 0 <= n < |xs| ==> f(xs[n]) == Success(MapAll(xs, f).value[n])
  {
    if xs != [] {
      MapAllPointwise(xs[1..], f);
      forall n | 0 <= n < |xs| ensures f(xs[n]) == Success(MapAll(xs, f).value[n]) {
        if n > 0 { assert xs[n] == xs[1..][n - 1]; }
      }
    }
  }

  /** MapAll fails exactly when some call fails, and then with the first failure. */
  lemma {:induction false} MapAllFirstFailure<X, Y, E>(xs: seq<X>, f: X -> Result<Y, E>)
    ensures MapAll(xs, f).Failure? <==> exists n :: 0 <= n < |xs| && f(xs[n]).Failure?
    ensures MapAll(xs, f).Failure? ==>
              exists n :: 0 <= n < |xs| && f(xs[n]) == Failure(MapAll(xs, f).error)
                          && forall m :: 0 <= m < n ==> f(xs[m]).Success?
  {
    if xs != [] {
      var tail := xs[1..];
      MapAllFirstFailure(tail, f);
      if f(xs[0]).Success? {
        if exists n :: 0 <= n < |xs| && f(xs[n]).Failure? {
          var n :| 0 <= n < |xs| && f(xs[n]).Failure?;
          assert f(tail[n - 1]).Failure?;
        }
        if MapAll(xs, f).Failure? {
          var n :| 0 <= n < |tail| && f(tail[n]) == Failure(MapAll(tail, f).error)
                   && forall m :: 0 <= m < n ==> f(tail[m]).Success?;
          assert f(xs[n + 1]) == Failure(MapAll(xs, f).error);
          forall m | 0 <= m < n + 1 ensures f(xs[m]).Success? {
            if m > 0 { assert xs[m] == tail[m - 1]; }
          }
        }
      }
    }
  }
}
