/** Optional values and results with an error, standing in for JavaScript's
    `undefined` and for exceptions thrown out of an operation. */
module Results {

  /** A value that may be absent (`undefined` in the source). */
  datatype Option<+T> = None | Some(value: T) {

    /** The value, or `default` when absent (the source's `x || default`). */
    function GetOr(default: T): T {
      match this
      case Some(v) => v
      case None => default
    }
  }

  /** The outcome of an operation that may throw. */
  datatype Result<+T, +E> = Success(value: T) | Failure(error: E)

  /** The run-time errors the engine can raise. */
  datatype Fault =
    /** a rule piece without `:` leaves the target list `undefined`, and `.split` on it throws */
    | MissingTargets(ruleText: string)
    /** `parse(undefined)`: the header value itself was absent */
    | UndefinedRules
    /** a `.`-prefixed target reaches the undefined `matchHostDot` (earliest revision) */
    | UndefinedMatchHostDot(target: string)

  /** `xs.map(f)` where `f` may throw: the first exception, in order,
      escapes; otherwise every result is kept in order. */
  function MapAll<X, T(==), E(==)>(f: X -> Result<T, E>, xs: seq<X>): (r: Result<seq<T>, E>)
    ensures r.Success? <==> forall i :: 0 <= i < |xs| ==> f(xs[i]).Success?
    ensures r.Success? ==> |r.value| == |xs|
    ensures r.Success? ==> forall i :: 0 <= i < |xs| ==> f(xs[i]) == Success(r.value[i])
    ensures r.Failure? ==> exists i :: 0 <= i < |xs| && f(xs[i]) == Failure(r.error)
                                 && (forall j :: 0 <= j < i ==> f(xs[j]).Success?)
    decreases |xs|
  {
    if xs == [] then Success([])
    else
      match f(xs[0])
      case Failure(e) => Failure(e)
      case Success(v) =>
        var rest := MapAll(f, xs[1..]);
        assert forall i :: 1 <= i < |xs| ==> xs[i] == xs[1..][i - 1];
        match rest
        case Failure(e) =>
          var k :| 0 <= k < |xs[1..]| && f(xs[1..][k]) == Failure(e)
                   && (forall j :: 0 <= j < k ==> f(xs[1..][j]).Success?);
          assert f(xs[k + 1]) == Failure(e);
          Failure(e)
        case Success(vs) =>
          var r := [v] + vs;
          assert forall i :: 1 <= i < |xs| ==> r[i] == vs[i - 1];
          Success(r)
  }

  /** Two lists computed one after the other: the first failure wins,
      otherwise the lists are concatenated. */
  function Then<T, E>(first: Result<seq<T>, E>, second: Result<seq<T>, E>): Result<seq<T>, E> {
    match first
    case Failure(e) => Failure(e)
    case Success(xs) =>
      match second
      case Failure(e) => Failure(e)
      case Success(ys) => Success(xs + ys)
  }

  /** Mapping over a concatenation is mapping over each part in turn. */
  lemma {:induction false} MapAllAppend<X, T, E>(f: X -> Result<T, E>, a: seq<X>, b: seq<X>)
    ensures MapAll(f, a + b) == Then(MapAll(f, a), MapAll(f, b))
    decreases |a|
  {
    if a == [] {
      assert a + b == b;
      var rb := MapAll(f, b);
      if rb.Success? {
        assert [] + rb.value == rb.value;
      }
    } else {
      assert (a + b)[0] == a[0] && (a + b)[1..] == a[1..] + b;
      MapAllAppend(f, a[1..], b);
      MapAllStep(f, a + b);
      MapAllStep(f, a);
      PrefixThen(f(a[0]), MapAll(f, a[1..]), MapAll(f, b));
    }
  }

  /** One result put in front of a list of results: the first failure wins. */
  function Prefix<T, E>(head: Result<T, E>, rest: Result<seq<T>, E>): Result<seq<T>, E> {
    match head
    case Failure(e) => Failure(e)
    case Success(v) =>
      match rest
      case Failure(e) => Failure(e)
      case Success(vs) => Success([v] + vs)
  }

  /** `MapAll` of a non-empty list maps its head, then its tail. */
  lemma MapAllStep<X, T, E>(f: X -> Result<T, E>, xs: seq<X>)
    requires xs != []
    ensures MapAll(f, xs) == Prefix(f(xs[0]), MapAll(f, xs[1..]))
  {
  }

  /** Putting a result in front commutes with `Then`. */
  lemma PrefixThen<T, E>(head: Result<T, E>, first: Result<seq<T>, E>, second: Result<seq<T>, E>)
    ensures Prefix(head, Then(first, second)) == Then(Prefix(head, first), second)
  {
    if head.Success? && first.Success? && second.Success? {
      assert [head.value] + (first.value + second.value) == ([head.value] + first.value) + second.value;
    }
  }

  /** A `for (x of xs) if (test(x)) break;` search where `test` may throw:
      the position of the first element the test accepts, `None` when it
      accepts none, or the first exception, whichever comes first. */
  function FindFirst<X, E(==)>(test: X -> Result<bool, E>, xs: seq<X>): (r: Result<Option<nat>, E>)
    ensures r == Success(None) <==> forall j :: 0 <= j < |xs| ==> test(xs[j]) == Success(false)
    ensures r.Success? && r.value.Some? ==>
      && r.value.value < |xs|
      && test(xs[r.value.value]) == Success(true)
      && forall j :: 0 <= j < r.value.value ==> test(xs[j]) == Success(false)
    ensures r.Failure? ==> exists k :: 0 <= k < |xs| && test(xs[k]) == Failure(r.error)
                                 && (forall j :: 0 <= j < k ==> test(xs[j]) == Success(false))
    decreases |xs|
  {
    if xs == [] then Success(None)
    else
      match test(xs[0])
      case Failure(e) => Failure(e)
      case Success(true) => Success(Some(0))
      case Success(false) =>
        var rest := FindFirst(test, xs[1..]);
        assert forall j :: 1 <= j < |xs| ==> xs[j] == xs[1..][j - 1];
        match rest
        case Failure(e) =>
          var k :| 0 <= k < |xs[1..]| && test(xs[1..][k]) == Failure(e)
                   && (forall j :: 0 <= j < k ==> test(xs[1..][j]) == Success(false));
          assert test(xs[k + 1]) == Failure(e);
          Failure(e)
        case Success(None) => Success(None)
        case Success(Some(k)) => Success(Some(k + 1))
  }
}
