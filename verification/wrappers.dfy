/** Failure-compatible result types shared by every module of the model.
    `Option` stands for a Java/JS value that may be null or absent, `Result`
    for a computation that may end in an exception (the error is its message). */
module Wrappers {

  datatype Option<+T> = None | Some(value: T) {
    predicate IsFailure() {
      None?
    }

    function PropagateFailure<U>(): Option<U>
      requires None?
    {
      None
    }

    function Extract(): T
      requires Some?
    {
      value
    }

    /** The value, or `d` when absent. */
    function GetOr(d: T): T {
      if Some? then value else d
    }
  }

  datatype Result<+T> = Ok(value: T) | Err(error: string) {
    predicate IsFailure() {
      Err?
    }

    function PropagateFailure<U>(): Result<U>
      requires Err?
    {
      Err(error)
    }

    function Extract(): T
      requires Ok?
    {
      value
    }
  }

  /** Converting every element of a sequence, element by element: all
      succeed when the first and all later ones do. */
  lemma ShiftedAllOk<S, T>(xs: seq<S>, tailOk: bool, conv: S -> Result<T>)
    requires |xs| > 0 && conv(xs[0]).Ok?
    requires tailOk <==> forall i :: 0 <= i < |xs| - 1 ==> conv(xs[1..][i]).Ok?
    ensures tailOk <==> forall i :: 0 <= i < |xs| ==> conv(xs[i]).Ok?
  {
    assert forall i :: 0 <= i < |xs| - 1 ==> xs[1..][i] == xs[i + 1];
    if !tailOk {
      var i :| 0 <= i < |xs| - 1 && !conv(xs[1..][i]).Ok?;
      assert !conv(xs[i + 1]).Ok?;
    }
  }

  /** The first converted element before the converted rest is the
      conversion of the whole sequence. */
  lemma ConsConverted<S, T>(xs: seq<S>, first: T, rest: seq<T>, conv: S -> Result<T>)
    requires |xs| > 0 && conv(xs[0]) == Ok(first)
    requires |rest| == |xs| - 1
    requires forall i :: 0 <= i < |xs| - 1 ==> conv(xs[1..][i]).Ok? && rest[i] == conv(xs[1..][i]).value
    ensures forall i :: 0 <= i < |xs| ==> conv(xs[i]).Ok? && ([first] + rest)[i] == conv(xs[i]).value
  {
    forall i | 1 <= i < |xs|
      ensures conv(xs[i]).Ok? && ([first] + rest)[i] == conv(xs[i]).value
    {
      assert xs[1..][i - 1] == xs[i];
    }
  }
}
