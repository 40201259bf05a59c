/** Small notions that several modules share. */
module Common {

  datatype Option<T> = None | Some(value: T)

  /** `kTfLiteOptionalTensor`: a missing input or output. */
  const OPTIONAL_TENSOR: int := -1

  /** The state of a mutex. */
  datatype Owner = Unlocked | LockedBy(thread: int)

  function Elems<T>(s: seq<T>): set<T> {
    set x | x in s
  }

  lemma LastApart<T>(a: seq<T>, b: seq<T>)
    requires b != []
    ensures var k := |b| - 1; b == b[..k] + [b[k]] && a + b == (a + b[..k]) + [b[k]]
  {
  }

  // ---------------------------------------------------------------- sums

  /** The values of `f` over a sequence, added up. */
  function Sum<T>(s: seq<T>, f: T -> nat): nat {
    if s == [] then 0 else Sum(s[..|s| - 1], f) + f(s[|s| - 1])
  }

  lemma {:induction false} SumUpdate<T>(s: seq<T>, i: int, x: T, f: T -> nat)
    requires 0 <= i < |s|
    ensures Sum(s[i := x], f) == Sum(s, f) - f(s[i]) + f(x)
  {
    var k := |s| - 1;
    if i < k {
      SumUpdate(s[..k], i, x, f);
      assert s[i := x][..k] == s[..k][i := x];
    } else {
      assert s[i := x][..k] == s[..k];
    }
  }

  lemma {:induction false} SumZero<T>(s: seq<T>, f: T -> nat)
    ensures Sum(s, f) == 0 <==> forall i :: 0 <= i < |s| ==> f(s[i]) == 0
  {
    if s != [] {
      var k := |s| - 1;
      SumZero(s[..k], f);
      assert forall i :: 0 <= i < k ==> s[..k][i] == s[i];
    }
  }
}
