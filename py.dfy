/** The pieces of Python's semantics that the tracker's core relies on:
    the exceptions it can raise and string slicing. */
module Py {

  /** The Python exceptions raised by the modelled code. */
  datatype Error = ValueError | IndexError | ZeroDivisionError

  /** A value, or the exception that was raised instead. */
  datatype Result<T> = Ok(value: T) | Err(error: Error)

  /** Python's normalisation of a slice bound against a sequence of length `len`:
      a negative bound counts from the end, and both ends are clamped. */
  function SliceBound(i: int, len: nat): (b: nat)
    ensures b <= len
    ensures 0 <= i <= len ==> b == i
    ensures i < 0 && 0 <= len + i ==> b == len + i
  {
    if i < 0 then (if len + i < 0 then 0 else len + i)
    else if i > len then len
    else i
  }

  /** `s[i:j]` in Python: never fails, and is empty when the bounds cross. */
  function Slice<T>(s: seq<T>, i: int, j: int): (r: seq<T>)
    ensures |r| <= |s|
    ensures 0 <= i <= j <= |s| ==> r == s[i..j]
  {
    var a := SliceBound(i, |s|);
    var b := SliceBound(j, |s|);
    if a <= b then s[a..b] else []
  }

  /** `s[::-1]`, the order `list.reverse()` leaves a list in. */
  function Reversed<T>(s: seq<T>): (r: seq<T>)
    ensures |r| == |s|
  {
    if s == [] then [] else [s[|s| - 1]] + Reversed(s[..|s| - 1])
  }

  lemma ReversedSnoc<T>(s: seq<T>, x: T)
    ensures Reversed(s + [x]) == [x] + Reversed(s)
  {
    assert (s + [x])[..|s|] == s;
  }
}
