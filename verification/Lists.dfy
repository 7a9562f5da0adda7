/** Lists without duplicates: the intrusive lists of kernel/kernel/src/klib/list.hpp as sequences. */
module Lists {

  datatype Option<+T> = None | Some(value: T)

  ghost predicate NoDuplicates<T>(s: seq<T>) {
    forall i, j :: 0 <= i < j < |s| ==> s[i] != s[j]
  }

  // Unlinking one element of a list.
  function Without<T(==)>(s: seq<T>, x: T): (r: seq<T>) {
    if s == [] then [] else if s[0] == x then s[1..] else [s[0]] + Without(s[1..], x)
  }

  lemma {:induction false} WithoutMembers<T>(s: seq<T>, x: T)
    requires NoDuplicates(s)
    ensures NoDuplicates(Without(s, x))
    ensures forall y :: y in Without(s, x) <==> y in s && y != x
    ensures |Without(s, x)| == if x in s then |s| - 1 else |s|
  {
    if s != [] {
      assert s == [s[0]] + s[1..];
      WithoutMembers(s[1..], x);
      var t := Without(s[1..], x);
      assert s[0] !in s[1..];
      assert s[0] !in t;
      assert NoDuplicates([s[0]] + t);
    }
  }

  // By its place.
  lemma {:induction false} WithoutAt<T>(s: seq<T>, p: nat)
    requires NoDuplicates(s) && p < |s|
    ensures Without(s, s[p]) == s[..p] + s[p + 1..]
  {
    if p > 0 {
      WithoutAt(s[1..], p - 1);
    }
  }

  lemma SameMembersSameLength<T>(a: seq<T>, b: seq<T>)
    requires NoDuplicates(a) && NoDuplicates(b)
    requires forall x :: x in a <==> x in b
    ensures |a| == |b|
  {
    SetOfDistinct(a);
    SetOfDistinct(b);
    assert (set x | x in a) == (set x | x in b);
  }

  lemma {:induction false} SetOfDistinct<T>(a: seq<T>)
    requires NoDuplicates(a)
    ensures |set x | x in a| == |a|
  {
    if a != [] {
      SetOfDistinct(a[1..]);
      assert (set x | x in a) == {a[0]} + (set x | x in a[1..]);
    }
  }
}
