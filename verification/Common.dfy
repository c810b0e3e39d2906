/** Values, limits and small facts shared by the other modules. */
module Common {

  datatype Option<+T> = None | Some(value: T)

  datatype Result<+T, +E> = Success(value: T) | Failure(error: E)

  /** SHA-256 as the program relies on it: collisions do not happen and no digest is the
      empty text that stands for an absent identity. */
  datatype Digest = NoDigest | Sha256(of: string)

  /** Unsigned subtraction at a place where it must not wrap around. */
  function Minus(a: nat, b: nat): nat
    requires b <= a
  {
    a - b
  }

  const U64_MAX: nat := 0xFFFF_FFFF_FFFF_FFFF
  const I64_MAX: nat := 0x7FFF_FFFF_FFFF_FFFF

  ghost predicate NoRepeats<T>(s: seq<T>) {
    forall i, j :: 0 <= i < j < |s| ==> s[i] != s[j]
  }

  lemma {:induction false} SubsetSize<T>(a: set<T>, b: set<T>)
    requires b <= a
    ensures |b| <= |a|
  {
    if b != {} {
      var x :| x in b;
      SubsetSize(a - {x}, b - {x});
    }
  }
}
