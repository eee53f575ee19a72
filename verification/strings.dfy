/** The string and array helpers every matcher relies on
    (`normalizeString`, `compareNormalized`, `setInArray`). */
module Strings {
  import opened Js

  /** `normalizeString(str?)`: an absent or empty string normalises to "";
      anything else goes through the host's Unicode fold. */
  function Normalize(rt: Runtime, s: Option<string>): (r: string)
    ensures !StrTruthy(s) ==> r == ""
    ensures StrTruthy(s) ==> r == rt.fold(s.value)
  {
    if StrTruthy(s) then rt.fold(s.value) else ""
  }

  /** `compareNormalized(a, b)`: equality up to the host's fold. */
  predicate Compare(rt: Runtime, a: string, b: string) {
    Normalize(rt, Some(a)) == Normalize(rt, Some(b))
  }

  /** The unguarded `normalizeString(str)` of the batch filler: it needs a
      defined string (on `undefined` the source throws a TypeError). */
  function NormalizeStrict(rt: Runtime, s: string): string {
    rt.fold(s)
  }

  predicate CompareStrict(rt: Runtime, a: string, b: string) {
    NormalizeStrict(rt, a) == NormalizeStrict(rt, b)
  }

  /** Both comparisons are equivalence relations, whatever the fold does. */
  lemma CompareIsEquivalence(rt: Runtime, a: string, b: string, c: string)
    ensures Compare(rt, a, a)
    ensures Compare(rt, a, b) <==> Compare(rt, b, a)
    ensures Compare(rt, a, b) && Compare(rt, b, c) ==> Compare(rt, a, c)
    ensures CompareStrict(rt, a, a)
    ensures CompareStrict(rt, a, b) <==> CompareStrict(rt, b, a)
    ensures CompareStrict(rt, a, b) && CompareStrict(rt, b, c) ==> CompareStrict(rt, a, c)
  {
  }

  /** The two normalisations agree on every non-empty string; on "" the
      guarded one answers "" without consulting the fold. */
  lemma NormalizeAgreement(rt: Runtime, s: string)
    ensures s != "" ==> Normalize(rt, Some(s)) == NormalizeStrict(rt, s)
    ensures Normalize(rt, Some("")) == "" && Normalize(rt, None) == ""
  {
  }

  /** Every element of `a` except those equal to `v`, in order
      (`arr.filter((x) => x != v)`). */
  function Without<T(==)>(a: seq<T>, v: T): (r: seq<T>)
    ensures v !in r
    ensures |r| <= |a|
    ensures forall i :: 0 <= i < |r| ==> r[i] in a && r[i] != v
    ensures forall i :: 0 <= i < |a| && a[i] != v ==> a[i] in r
    ensures v !in a ==> r == a
  {
    if a == [] then []
    else if a[0] == v then Without(a[1..], v)
    else [a[0]] + Without(a[1..], v)
  }

  /** `setInArray(arr, value, setAs)`: make membership of `value` equal to `setAs`. */
  function SetInArray<T(==)>(a: seq<T>, v: T, setAs: bool): (r: seq<T>)
    ensures setAs ==> v in r
    ensures !setAs ==> v !in r
    ensures setAs && v in a ==> r == a
    ensures setAs && v !in a ==> r == a + [v] && |r| == |a| + 1
    ensures !setAs ==> r == Without(a, v)
    ensures forall i :: 0 <= i < |a| && a[i] != v ==> a[i] in r
    ensures forall i :: 0 <= i < |r| && r[i] != v ==> r[i] in a
  {
    if setAs then
      if v in a then a else a + [v]
    else
      if v !in a then a else Without(a, v)
  }

  /** Removal works piecewise, so every other element keeps its relative
      order: removing from `a + b` removes from `a` and from `b` separately. */
  lemma {:induction false} WithoutAppend<T>(a: seq<T>, b: seq<T>, v: T)
    ensures Without(a + b, v) == Without(a, v) + Without(b, v)
  {
    if a == [] {
      assert a + b == b;
    } else {
      assert (a + b)[0] == a[0];
      assert (a + b)[1..] == a[1..] + b;
      WithoutAppend(a[1..], b, v);
    }
  }

  /** Removal deletes exactly the occurrences of `v`. */
  lemma {:induction false} WithoutCount<T>(a: seq<T>, v: T)
    ensures multiset(Without(a, v)) == multiset(a)[v := 0]
  {
    if a == [] {
    } else {
      WithoutCount(a[1..], v);
      assert a == [a[0]] + a[1..];
      if a[0] != v {
        assert Without(a, v) == [a[0]] + Without(a[1..], v);
      }
    }
  }

  /** Applying the same toggle twice is the same as applying it once. */
  lemma SetInArrayIdempotent<T>(a: seq<T>, v: T, setAs: bool)
    ensures SetInArray(SetInArray(a, v, setAs), v, setAs) == SetInArray(a, v, setAs)
  {
  }
}
