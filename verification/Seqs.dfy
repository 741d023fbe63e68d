/** Sequences standing for the kernel's intrusive lists: the front is the element after the list head. */
module Seqs {

  predicate NoDup<T(==)>(l: seq<T>) {
    forall i, j :: 0 <= i < j < |l| ==> l[i] != l[j]
  }

  /** list_delete: the list without its first occurrence of x. */
  function Without<T(==)>(l: seq<T>, x: T): (r: seq<T>) {
    if l == [] then [] else if l[0] == x then l[1..] else [l[0]] + Without(l[1..], x)
  }

  lemma {:induction false} WithoutMembers<T>(l: seq<T>, x: T)
    requires NoDup(l)
    ensures NoDup(Without(l, x))
    ensures forall y :: y in Without(l, x) <==> y in l && y != x
  {
    if l != [] {
      WithoutMembers(l[1..], x);
      var r := Without(l[1..], x);
      assert l == [l[0]] + l[1..] && l[0] !in l[1..];
      assert forall i :: 0 <= i < |r| ==> r[i] in r;
    }
  }
}
