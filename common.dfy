/** Values shared by every part of the model: optional values, the errors the
    bridge raises, and Python's integer floor division. */
module Common {

  datatype Option<T> = None | Some(value: T)

  /** The exceptions (and failed assertions) that end an operation of the bridge. */
  datatype Error =
    | ValidationError        // the configuration document does not match the schema
    | MissingInterval        // ConfigError("missing interval")
    | NamesHostsMismatch     // ConfigError("Number of names and hosts differ")
    | EmptyMetricName        // the assertion in combine_name
    | DivisionByZero         // ZeroDivisionError
    | RegisterCountMismatch  // a read returned a different number of registers than requested
    | AssertionFailed        // another assertion of the bridge did not hold
    | DeclarationFailed      // declaring the metrics to the metricq manager raised

  datatype Result<T> = Ok(value: T) | Err(error: Error)

  /** Nanoseconds in one second: metricq durations and timestamps count nanoseconds. */
  const NANOS_PER_SECOND: int := 1_000_000_000

  /** Python's `a // b` on integers, which rounds toward negative infinity
      (Dafny's `/` is Euclidean and differs for a negative divisor). */
  function FloorDiv(a: int, b: int): (q: int)
    requires b != 0
    ensures b > 0 ==> q * b <= a < q * b + b
    ensures b < 0 ==> q * b + b < a <= q * b
  {
    if b > 0 then a / b
    else if a % -b == 0 then -(a / -b)
    else -(a / -b) - 1
  }

  /** `[f(x) for x in xs]` where `f` may raise: applied in order, and the
      first failure ends it. */
  function MapResults<A, B>(xs: seq<A>, f: A --> Result<B>): (r: Result<seq<B>>)
    requires forall i :: 0 <= i < |xs| ==> f.requires(xs[i])
    ensures r.Ok? ==> |r.value| == |xs|
    ensures r.Ok? ==> forall i :: 0 <= i < |xs| ==> f(xs[i]) == Ok(r.value[i])
    ensures r.Err? <==> exists i :: 0 <= i < |xs| && f(xs[i]).Err?
  {
    if xs == [] then Ok([])
    else
      var head := f(xs[0]);
      if head.Err? then Err(head.error)
      else
        var tail := MapResults(xs[1..], f);
        if tail.Err? then tail
        else Ok([head.value] + tail.value)
  }

  /** `[y for x in xs for y in f(x)]` where `f` may raise: applied in order,
      the results concatenated, and the first failure ends it. */
  function ConcatResults<A, B>(xs: seq<A>, f: A -> Result<seq<B>>): (r: Result<seq<B>>)
    ensures r.Err? <==> exists i :: 0 <= i < |xs| && f(xs[i]).Err?
  {
    if xs == [] then Ok([])
    else
      var head := f(xs[0]);
      if head.Err? then Err(head.error)
      else
        var tail := ConcatResults(xs[1..], f);
        if tail.Err? then tail
        else Ok(head.value + tail.value)
  }

  /** What element `k` contributes sits, in order, between what the elements
      before it and the elements after it contribute. */
  lemma {:induction false} ConcatResultsSplit<A, B>(xs: seq<A>, f: A -> Result<seq<B>>, k: nat)
    requires k < |xs|
    ensures ConcatResults(xs, f).Ok? ==>
      && ConcatResults(xs[..k], f).Ok? && f(xs[k]).Ok? && ConcatResults(xs[k + 1..], f).Ok?
      && ConcatResults(xs, f).value
         == ConcatResults(xs[..k], f).value + f(xs[k]).value + ConcatResults(xs[k + 1..], f).value
  {
    if ConcatResults(xs, f).Ok? {
      ConcatResultsCons(xs, f);
      var head := f(xs[0]).value;
      if k == 0 {
        assert ConcatResults(xs[..0], f) == Ok([]) by {
          assert xs[..0] == [];
        }
        assert [] + head == head;
      } else {
        var rest := xs[1..];
        ConcatResultsSplit(rest, f, k - 1);
        var before := ConcatResults(rest[..k - 1], f).value;
        var here := f(xs[k]).value;
        var after := ConcatResults(xs[k + 1..], f).value;
        assert ConcatResults(rest, f).value == before + here + after by {
          assert rest[k - 1] == xs[k] && rest[k..] == xs[k + 1..];
        }
        assert ConcatResults(xs[..k], f) == Ok(head + before) by {
          assert xs[..k][0] == xs[0] && xs[..k][1..] == rest[..k - 1];
          ConcatResultsCons(xs[..k], f);
        }
        assert head + (before + here + after) == (head + before) + here + after;
      }
    }
  }

  /** One step of the concatenation: it succeeds exactly when the first
      element and the rest do, and then starts with the first element's part. */
  lemma ConcatResultsCons<A, B>(xs: seq<A>, f: A -> Result<seq<B>>)
    requires xs != []
    ensures ConcatResults(xs, f).Ok? <==> f(xs[0]).Ok? && ConcatResults(xs[1..], f).Ok?
    ensures ConcatResults(xs, f).Ok? ==> ConcatResults(xs, f).value == f(xs[0]).value + ConcatResults(xs[1..], f).value
  {
  }

  /** The error is that of the first element that fails. */
  lemma {:induction false} ConcatResultsFirstError<A, B>(xs: seq<A>, f: A -> Result<seq<B>>, k: nat)
    requires k < |xs| && f(xs[k]).Err?
    requires forall i :: 0 <= i < k ==> f(xs[i]).Ok?
    ensures ConcatResults(xs, f) == Err(f(xs[k]).error)
  {
    if k > 0 {
      assert forall i :: 0 <= i < k - 1 ==> xs[1..][i] == xs[i + 1];
      ConcatResultsFirstError(xs[1..], f, k - 1);
    }
  }

  /** The error is that of the first element that fails. */
  lemma {:induction false} MapResultsFirstError<A, B>(xs: seq<A>, f: A --> Result<B>, k: nat)
    requires forall i :: 0 <= i < |xs| ==> f.requires(xs[i])
    requires k < |xs| && f(xs[k]).Err?
    requires forall i :: 0 <= i < k ==> f(xs[i]).Ok?
    ensures MapResults(xs, f) == Err(f(xs[k]).error)
  {
    if k > 0 {
      assert forall i :: 0 <= i < k - 1 ==> xs[1..][i] == xs[i + 1];
      MapResultsFirstError(xs[1..], f, k - 1);
    }
  }
}
