/** Option, the "value or nothing" wrapper the model uses in place of C#'s
    nullable references and nullable `DateTime?`. */
module Wrappers {

  datatype Option<+T> = None | Some(value: T) {

    /** The `??` operator: the wrapped value, or `default` when absent. */
    function GetOr(default: T): T {
      match this
      case Some(v) => v
      case None => default
    }
  }

  /** The present values of `s`, in order: LINQ's `.Where(a => a is not null)`. */
  function KeepSome<T>(s: seq<Option<T>>): (r: seq<T>)
    ensures |r| <= |s|
    ensures forall i :: 0 <= i < |r| ==> Some(r[i]) in s
  {
    if s == [] then []
    else if s[0].Some? then [s[0].value] + KeepSome(s[1..])
    else KeepSome(s[1..])
  }

  /** When nothing is absent, KeepSome drops nothing and keeps the order. */
  lemma {:induction false} KeepSomeAllPresent<T>(s: seq<Option<T>>)
    requires forall i :: 0 <= i < |s| ==> s[i].Some?
    ensures |KeepSome(s)| == |s|
    ensures forall i :: 0 <= i < |s| ==> KeepSome(s)[i] == s[i].value
  {
    if s != [] {
      KeepSomeAllPresent(s[1..]);
      assert KeepSome(s) == [s[0].value] + KeepSome(s[1..]);
    }
  }

  /** Every value KeepSome yields was present in the input. */
  lemma {:induction false} KeepSomeMembers<T>(s: seq<Option<T>>, x: T)
    ensures x in KeepSome(s) <==> Some(x) in s
  {
    if s != [] {
      KeepSomeMembers(s[1..], x);
      assert s == [s[0]] + s[1..];
    }
  }
}
