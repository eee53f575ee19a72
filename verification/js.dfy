/** The few JavaScript runtime behaviours the extension leans on, made explicit.

    Everything the engine cannot compute for itself (Unicode decomposition with
    diacritic stripping, `toLowerCase`, `Number(...)` coercion, number printing)
    is a field of a `Runtime` value that every operation receives as a parameter.
    Nothing about those host functions is assumed unless a contract says so. */
module Js {

  datatype Option<+T> = None | Some(value: T)

  /** A JavaScript number as far as this engine can tell them apart. */
  datatype Num = NaN | Infinite(positive: bool) | Finite(value: real)

  datatype Runtime = Runtime(
    /** `s.normalize('NFD').replace(/\p{Diacritic}/gu, '').toLowerCase()` */
    fold: string -> string,
    /** `String.prototype.toLowerCase` */
    lower: string -> string,
    /** `Number(s)` for a string `s` */
    number: string -> Num,
    /** `Number.prototype.toString` */
    show: Num -> string,
    /** `Number.prototype.toFixed(2)` */
    fixed2: Num -> string
  )

  /** Truthiness of a number: `0`, `-0` and `NaN` are falsy. */
  predicate NumTruthy(n: Num) {
    match n
    case NaN => false
    case Infinite(_) => true
    case Finite(v) => v != 0.0
  }

  /** Truthiness of an optional string: `undefined` and `''` are falsy. */
  predicate StrTruthy(s: Option<string>) {
    s.Some? && s.value != ""
  }

  /** `n || 0` on a number. */
  function OrZero(n: Num): (r: Num)
    ensures !r.NaN?
    ensures NumTruthy(r) <==> NumTruthy(n)
    ensures NumTruthy(n) ==> r == n
    ensures !NumTruthy(n) ==> r == Finite(0.0)
  {
    if NumTruthy(n) then n else Finite(0.0)
  }

  /** A CSV record: column header to raw cell text. A header the record
      does not carry reads as `undefined`. */
  type Record = map<string, string>

  function Cell(rec: Record, column: string): Option<string> {
    if column in rec then Some(rec[column]) else None
  }

  /** `String(rec[column])`: an absent cell prints as "undefined". */
  function CellText(rec: Record, column: string): (r: string)
    ensures column in rec ==> r == rec[column]
    ensures column !in rec ==> r == "undefined"
  {
    match Cell(rec, column)
    case Some(s) => s
    case None => "undefined"
  }

  /** `Number(rec[column])`: `Number(undefined)` is `NaN`. */
  function CellNumber(rt: Runtime, rec: Record, column: string): (r: Num)
    ensures column in rec ==> r == rt.number(rec[column])
    ensures column !in rec ==> r.NaN?
  {
    match Cell(rec, column)
    case Some(s) => rt.number(s)
    case None => NaN
  }

  /** Index resolution of `Array.prototype.slice`: a negative index counts
      from the end, and the result is clamped into `[0, len]`. */
  function SliceIndex(i: int, len: nat): (r: nat)
    ensures r <= len
    ensures 0 <= i <= len ==> r == i
  {
    if i < 0 then (if len + i < 0 then 0 else len + i)
    else if i > len then len
    else i
  }

  /** `a.slice(start, end)` */
  function Slice<T>(a: seq<T>, start: int, end: int): (r: seq<T>)
    ensures |r| <= |a|
    ensures 0 <= start <= end <= |a| ==> r == a[start..end]
    ensures 0 <= start && start <= end ==> |r| <= end - start
    ensures 0 <= start <= end ==>
      r == a[(if start < |a| then start else |a|)..(if end < |a| then end else |a|)]
    ensures 0 <= end <= start ==> r == []
  {
    var from := SliceIndex(start, |a|);
    var to := SliceIndex(end, |a|);
    if from < to then a[from..to] else []
  }

  /** No slice is longer than the distance between its two indices. */
  lemma SliceLength<T>(a: seq<T>, start: int, end: int)
    requires start <= end
    ensures |Slice(a, start, end)| <= end - start
  {
    var from := SliceIndex(start, |a|);
    var to := SliceIndex(end, |a|);
    if from < to {
      if start < 0 && end >= 0 {
        assert from >= |a| + start;
      }
    }
  }

  /** A negative index counts from the end of the array, and one reaching
      before its start stands for 0. */
  lemma SliceNegativeIndices<T>(a: seq<T>, start: int, end: int)
    ensures -|a| <= start < 0 ==> Slice(a, start, end) == Slice(a, |a| + start, end)
    ensures start < -|a| ==> Slice(a, start, end) == Slice(a, 0, end)
    ensures -|a| <= end < 0 ==> Slice(a, start, end) == Slice(a, start, |a| + end)
    ensures end < -|a| ==> Slice(a, start, end) == []
  {
  }
}
