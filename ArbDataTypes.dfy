/**
 * The value mappings behind the property-test generators for Result
 * (ephox.katamari.test.arb.ArbDataTypes): how a Result is shown, the maps
 * between strings and Results used by the two Result generators, and the
 * index array built by `genIndexArrayOf`.
 */
module ArbDataTypes {

  /** katamari's `Result`: an error or a value. */
  datatype Result<E, V> = Error(error: E) | Value(value: V) {

    /** `res.fold(onError, onValue)`. */
    function Fold<R>(onError: E -> R, onValue: V -> R): (r: R)
      ensures Error? ==> r == onError(error)
      ensures Value? ==> r == onValue(value)
    {
      match this
      case Error(e) => onError(e)
      case Value(v) => onValue(v)
    }
  }

  /** How a call completes: with a value, or by throwing `Fun.die`'s error. */
  datatype Completion<T> = Returned(value: T) | Thrown(message: string)

  /** The message of the error thrown when a map meets the wrong kind of Result. */
  const Impossible: string := "This should not happen"

  const ErrorPrefix: string := "Result.error("
  const ValuePrefix: string := "Result.value("

  /** `show`: `Result.error(e)` or `Result.value(v)`. */
  function Show(res: Result<string, string>): (r: string)
    ensures res.Error? ==> r == ErrorPrefix + res.error + ")"
    ensures res.Value? ==> r == ValuePrefix + res.value + ")"
  {
    res.Fold(e => ErrorPrefix + e + ")", v => ValuePrefix + v + ")")
  }

  /** No two Results are shown alike. */
  lemma ShowInjective(a: Result<string, string>, b: Result<string, string>)
    requires Show(a) == Show(b)
    ensures a == b
  {
    var s := Show(a);
    assert |ErrorPrefix| == 13 && |ValuePrefix| == 13;
    assert s[7] == (if a.Error? then 'e' else 'v');
    assert Show(b)[7] == (if b.Error? then 'e' else 'v');
    var pa := if a.Error? then a.error else a.value;
    var pb := if b.Error? then b.error else b.value;
    assert s[13..|s| - 1] == pa;
    assert Show(b)[13..|s| - 1] == pb;
  }

  /** The forward map of `resultError`: a string becomes an error. */
  function ErrorOf(e: string): (r: Result<string, string>)
    ensures r.Error? && r.error == e
  {
    Error(e)
  }

  /** The backward map of `resultError`: the error's text, and a throw on a value. */
  function UnError(res: Result<string, string>): (r: Completion<string>)
    ensures res.Error? ==> r == Returned(res.error)
    ensures res.Value? ==> r == Thrown("This should not happen")
  {
    res.Fold(e => Returned(e), _ => Thrown(Impossible))
  }

  /** The forward map of `resultValue`: a string becomes a value. */
  function ValueOf(v: string): (r: Result<string, string>)
    ensures r.Value? && r.value == v
  {
    Value(v)
  }

  /** The backward map of `resultValue`: a throw on an error, and the value's text. */
  function UnValue(res: Result<string, string>): (r: Completion<string>)
    ensures res.Error? ==> r == Thrown("This should not happen")
    ensures res.Value? ==> r == Returned(res.value)
  {
    res.Fold(_ => Thrown(Impossible), v => Returned(v))
  }

  /** `resultError`'s maps undo each other on strings and on errors. */
  lemma ErrorMapsRoundTrip(e: string, res: Result<string, string>)
    ensures UnError(ErrorOf(e)) == Returned(e)
    ensures res.Error? ==> UnError(res).Returned? && ErrorOf(UnError(res).value) == res
  {
  }

  /** `resultValue`'s maps undo each other on strings and on values. */
  lemma ValueMapsRoundTrip(v: string, res: Result<string, string>)
    ensures UnValue(ValueOf(v)) == Returned(v)
    ensures res.Value? ==> UnValue(res).Returned? && ValueOf(UnValue(res).value) == res
  {
  }

  /**
   * The array built for a generated length: `[0, 1, ..., aLength - 1]`.
   * `aLength` is what the integer generator drew from `[0, len]`.
   */
  method IndexArray(len: int, aLength: int) returns (r: seq<int>)
    requires 0 <= aLength <= len
    ensures |r| == aLength <= len
    ensures forall i :: 0 <= i < |r| ==> r[i] == i
  {
    r := [];
    var i := 0;
    while i < aLength
      invariant 0 <= i <= aLength
      invariant |r| == i
      invariant forall j :: 0 <= j < i ==> r[j] == j
    {
      r := r + [i];
      i := i + 1;
    }
  }
}
