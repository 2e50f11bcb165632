/** Types and facts shared by the other modules. */
module Basics {

  datatype Option<+T> = None | Some(value: T)

  type Byte = b: nat | b < 256
  type Bytes = seq<Byte>

  /** A SHA-256 digest. */
  type Digest = h: Bytes | |h| == 32 witness seq(32, _ => 0)

  predicate NoDuplicates<T(==)>(s: seq<T>) {
    forall i, j :: 0 <= i < j < |s| ==> s[i] != s[j]
  }

  /** Each element is related to the next. */
  ghost predicate Chain<T(!new)>(s: seq<T>, rel: (T, T) -> bool) {
    forall k :: 0 <= k < |s| - 1 ==> rel(s[k], s[k + 1])
  }

  lemma ChainExtend<T(!new)>(s: seq<T>, x: T, rel: (T, T) -> bool)
    requires s != [] && Chain(s, rel) && rel(s[|s| - 1], x)
    ensures Chain(s + [x], rel)
  {
  }

  /** A subset is no larger, and as large only if it is the whole set. */
  lemma {:induction false} SubsetSize<T>(a: set<T>, b: set<T>)
    requires a <= b
    ensures |a| <= |b|
    ensures |a| == |b| <==> a == b
  {
    if a != {} {
      var x :| x in a;
      SubsetSize(a - {x}, b - {x});
    }
  }
}
