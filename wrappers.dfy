/** Small failure-carrying datatypes shared by every module. */
module Wrappers {

  /** A value that may be missing: C#'s `null` or `T?`. */
  datatype Option<+T> = None | Some(value: T) {
    function GetOr(default: T): T {
      match this
      case Some(v) => v
      case None => default
    }
  }

  /** The outcome of C# code that may throw: it either returns a value or raises an exception. */
  datatype Fallible<+T> = Returns(value: T) | Throws

  /** The `value` of every `Some` in `s`, in order (LINQ's `.Where(x => x.HasValue)`). */
  function Somes<T(!new)>(s: seq<Option<T>>): (r: seq<T>)
    ensures |r| <= |s|
  {
    if s == [] then []
    else
      var rest := Somes(s[1..]);
      if s[0].Some? then [s[0].value] + rest else rest
  }

  /** The values collected are exactly those some entry holds. */
  lemma {:induction false} SomesAreValues<T(!new)>(s: seq<Option<T>>)
    ensures forall x :: x in Somes(s) <==> Some(x) in s
  {
    if s != [] {
      SomesAreValues(s[1..]);
      assert forall x :: Some(x) in s <==> Some(x) == s[0] || Some(x) in s[1..];
    }
  }

  /** Collecting the values of a list extended by one more entry. */
  lemma {:induction false} SomesSnoc<T(!new)>(s: seq<Option<T>>, o: Option<T>)
    ensures Somes(s + [o]) == Somes(s) + (if o.Some? then [o.value] else [])
  {
    if s == [] {
      assert s + [o] == [o];
    } else {
      assert (s + [o])[1..] == s[1..] + [o];
      SomesSnoc(s[1..], o);
    }
  }

  /** A list without any `Some` has no values. */
  lemma {:induction false} SomesOfNones<T(!new)>(s: seq<Option<T>>)
    requires forall i :: 0 <= i < |s| ==> s[i].None?
    ensures Somes(s) == []
  {
    if s != [] {
      SomesOfNones(s[1..]);
    }
  }
}
