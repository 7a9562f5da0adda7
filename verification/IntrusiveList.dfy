/**
 The circular intrusive lists of kernel/kernel/src/klib/list.hpp as objects that point at each other.  They implement
 the lists without repetition that the other modules work with, as long as nothing is linked in that is linked already.
 */
module IntrusiveList {

  import opened Lists

  class ListHead {
    var next: ListHead?
    var prev: ListHead?

    constructor ()
      ensures next == null && prev == null
    {
      next, prev := null, null;
    }

    // The circle of this head and its entries.
    ghost function At(s: seq<ListHead>, k: int): ListHead {
      if 0 <= k < |s| then s[k] else this
    }

    ghost predicate NextAt(s: seq<ListHead>, k: int)
      reads this, s
    {
      At(s, k).next == At(s, k + 1)
    }

    ghost predicate PrevAt(s: seq<ListHead>, k: int)
      reads this, s
    {
      At(s, k + 1).prev == At(s, k)
    }

    // What LIST_FOR_EACH meets: following next from this head visits the entries of s and is back at the head.
    ghost predicate Walks(s: seq<ListHead>)
      reads this, s
    {
      this !in s && NoDuplicates(s) && forall k :: -1 <= k < |s| ==> NextAt(s, k)
    }

    /** This is the head of a list of exactly these entries. */
    ghost predicate IsList(s: seq<ListHead>)
      reads this, s
    {
      Walks(s) && forall k :: -1 <= k < |s| ==> PrevAt(s, k)
    }

    method Init()
      modifies this
      ensures IsList([])
    {
      next := this;
      prev := this;
    }

    method IsEmpty(ghost s: seq<ListHead>) returns (r: bool)
      requires IsList(s)
      ensures r <==> s == []
    {
      assert NextAt(s, -1);
      r := next == this;
    }

    // The list with an entry put in at position p.
    ghost function Inserted(s: seq<ListHead>, p: nat, entry: ListHead): seq<ListHead>
      requires p <= |s|
    {
      s[..p] + [entry] + s[p..]
    }

    lemma InsertedAt(s: seq<ListHead>, p: nat, entry: ListHead, k: int)
      requires p <= |s| && -1 <= k <= |s| + 1
      ensures At(Inserted(s, p, entry), k) == if k < p then At(s, k) else if k == p then entry else At(s, k - 1)
    {
    }

    // All places of the circle are distinct nodes.
    lemma Distinct(s: seq<ListHead>)
      requires this !in s && NoDuplicates(s)
      ensures forall j, k :: -1 <= j < |s| && -1 <= k < |s| && j != k ==> At(s, j) != At(s, k)
    {
    }

    // The circle is linked everywhere but at some places.
    ghost predicate LinkedBut(s: seq<ListHead>, gaps: set<int>)
      reads this, s
    {
      && this !in s && NoDuplicates(s)
      && (forall k :: -1 <= k < |s| && k !in gaps ==> NextAt(s, k) && PrevAt(s, k))
    }

    /** The four assignments of add and add_before put an entry between two places. */
    lemma LinkedIn(s: seq<ListHead>, p: nat, entry: ListHead)
      requires p <= |s| && LinkedBut(s, {p - 1}) && entry != this && entry !in s
      requires At(s, p - 1).next == entry && entry.prev == At(s, p - 1)
      requires At(s, p).prev == entry && entry.next == At(s, p)
      ensures IsList(Inserted(s, p, entry))
    {
      var t := Inserted(s, p, entry);
      forall k | -1 <= k < |t| ensures NextAt(t, k) && PrevAt(t, k) {
        InsertedAt(s, p, entry, k);
        InsertedAt(s, p, entry, k + 1);
        if k < p - 1 {
          assert NextAt(s, k) && PrevAt(s, k);
        } else if k > p {
          assert NextAt(s, k - 1) && PrevAt(s, k - 1);
        }
      }
    }

    /** The entry goes in front of this one, which is entry p of a list or, at its end, the head.  If one that is on
        the list goes to its end, a walk from the head stops behind it, and the links are no list any more. */
    method AddBefore(entry: ListHead, ghost head: ListHead, ghost s: seq<ListHead>, ghost p: nat)
      requires head.IsList(s) && p <= |s| && this == head.At(s, p) && entry != head && (entry in s ==> p == |s|)
      modifies this, prev, entry
      ensures entry !in s ==> head.IsList(head.Inserted(s, p, entry))
      ensures forall i :: 0 <= i < |s| && s[i] == entry ==>
        head.Walks(s[..i + 1]) && forall t: seq<ListHead> :: !head.IsList(t)
    {
      assert head.PrevAt(s, p - 1);
      head.Distinct(s);
      prev.next := entry;
      entry.prev := prev;
      entry.next := this;
      this.prev := entry;
      if entry !in s {
        forall k | -1 <= k < |s| && k != p - 1 ensures head.NextAt(s, k) && head.PrevAt(s, k) {
          assert old(head.NextAt(s, k)) && old(head.PrevAt(s, k));
        }
        head.LinkedIn(s, p, entry);
      } else {
        ghost var i :| 0 <= i < |s| && s[i] == entry;
        forall k | -1 <= k < i ensures head.NextAt(s, k) {
          assert old(head.NextAt(s, k));
        }
        head.LinkedAgain(s, i);
      }
    }

    /** The entry goes behind this one, which is the head or an entry of a list. */
    method Add(entry: ListHead, ghost head: ListHead, ghost s: seq<ListHead>, ghost p: nat)
      requires head.IsList(s) && p <= |s| && this == head.At(s, p - 1) && entry != head && entry !in s
      modifies this, next, entry
      ensures head.IsList(head.Inserted(s, p, entry))
    {
      assert head.NextAt(s, p - 1);
      head.Distinct(s);
      next.prev := entry;
      entry.next := next;
      entry.prev := this;
      this.next := entry;
      forall k | -1 <= k < |s| && k != p - 1 ensures head.NextAt(s, k) && head.PrevAt(s, k) {
        assert old(head.NextAt(s, k)) && old(head.PrevAt(s, k));
      }
      head.LinkedIn(s, p, entry);
    }

    /** This entry of a list leaves it. */
    method Remove(ghost head: ListHead, ghost s: seq<ListHead>)
      requires head.IsList(s) && this in s
      modifies this, prev, next
      ensures head.IsList(Without(s, this)) && next == null && prev == null
    {
      ghost var p :| 0 <= p < |s| && s[p] == this;
      assert head.PrevAt(s, p - 1) && head.NextAt(s, p);
      head.Distinct(s);
      next.prev := prev;
      prev.next := next;
      this.next := null;
      this.prev := null;
      forall k | -1 <= k < |s| && k != p - 1 && k != p ensures head.NextAt(s, k) && head.PrevAt(s, k) {
        assert old(head.NextAt(s, k)) && old(head.PrevAt(s, k));
      }
      head.Unlinked(s, p);
      WithoutAt(s, p);
    }

    /** The first entry, if there is one, leaves the list of this head. */
    method PopFront(ghost s: seq<ListHead>) returns (r: ListHead?)
      requires IsList(s)
      modifies this, s
      ensures if s == [] then r == null && IsList([]) else r == s[0] && IsList(s[1..]) && r.next == null && r.prev == null
    {
      assert NextAt(s, -1);
      var empty := IsEmpty(s);
      if empty {
        return null;
      }
      r := next;
      assert NextAt(s, 0) && PrevAt(s, -1);
      r.Remove(this, s);
    }

    // What remove leaves.
    lemma Unlinked(s: seq<ListHead>, p: nat)
      requires p < |s| && LinkedBut(s, {p - 1, p})
      requires At(s, p - 1).next == At(s, p + 1) && At(s, p + 1).prev == At(s, p - 1)
      ensures IsList(s[..p] + s[p + 1..])
    {
      var t := s[..p] + s[p + 1..];
      forall k | -1 <= k < |t| ensures NextAt(t, k) && PrevAt(t, k) {
        assert At(t, k) == At(s, if k < p then k else k + 1);
        assert At(t, k + 1) == At(s, if k + 1 < p then k + 1 else k + 2);
        if k < p - 1 {
          assert NextAt(s, k) && PrevAt(s, k);
        } else if k >= p {
          assert NextAt(s, k + 1) && PrevAt(s, k + 1);
        }
      }
    }

    // What add_before of the head leaves for an entry of its list.
    lemma LinkedAgain(s: seq<ListHead>, i: nat)
      requires this !in s && NoDuplicates(s) && i < |s| && s[i].next == this && s[i].prev == s[|s| - 1]
      requires forall k :: -1 <= k < i ==> NextAt(s, k)
      ensures Walks(s[..i + 1]) && forall t: seq<ListHead> :: !IsList(t)
    {
      var w := s[..i + 1];
      forall k | -1 <= k < |w| ensures NextAt(w, k) {
        assert k < i ==> NextAt(s, k);
      }
      forall t: seq<ListHead> ensures !IsList(t) {
        if IsList(t) {
          OneWalk(w, t);
          assert PrevAt(t, i - 1);
          Distinct(s);
        }
      }
    }

    // There is one way to walk from a head.
    lemma OneWalk(s: seq<ListHead>, t: seq<ListHead>)
      requires Walks(s) && Walks(t)
      ensures s == t
    {
      OneWalkUpTo(s, t, |s|);
      OneWalkUpTo(t, s, |t|);
    }

    lemma {:induction false} OneWalkUpTo(s: seq<ListHead>, t: seq<ListHead>, k: nat)
      requires Walks(s) && Walks(t) && k <= |s|
      ensures k <= |t| && s[..k] == t[..k]
    {
      if k > 0 {
        OneWalkUpTo(s, t, k - 1);
        assert NextAt(s, k - 2) && NextAt(t, k - 2);
      }
    }
  }
}
