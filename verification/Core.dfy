/**
 What the modules share: the status of an operation that allocates, layouts, the width of size_t, and
 two facts of finite collections.
 */
module Core {
  datatype Status = Ok | NoMem

  datatype Option<T> = None | Some(value: T)

  /** The size and alignment a block is asked for with. */
  datatype Layout = Layout(size: nat, align: nat)

  const SIZE_MAX: nat := 0xFFFF_FFFF_FFFF_FFFF

  ghost predicate Distinct<T>(s: seq<T>) {
    forall i, j :: 0 <= i < j < |s| ==> s[i] != s[j]
  }

  /** A subset is no larger, and as large only as the set itself. */
  lemma {:induction false} SubsetCount<T>(a: set<T>, b: set<T>)
    requires a <= b
    ensures |a| <= |b| && (|a| == |b| ==> a == b)
  {
    if a != {} {
      var x :| x in a;
      SubsetCount(a - {x}, b - {x});
    }
  }
}
