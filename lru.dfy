/** The bounded recency list of lru.go (type LRU).

    Go keeps a doubly linked list of keys, most recently used at the front,
    and a map from each key to its list element.  Here the list is a
    sequence ordered front to back and the map is the set of its keys: the
    element a key maps to is its position in the sequence. */
module Lru {
  import opened Bits

  /** No key occurs twice. */
  ghost predicate NoDup(l: seq<uint32>) {
    forall i, j :: 0 <= i < j < |l| ==> l[i] != l[j]
  }

  /** The keys held in l. */
  ghost function Elems(l: seq<uint32>): set<uint32> {
    set x | x in l
  }

  /** The position of x in l, found from the front. */
  function IndexOf(l: seq<uint32>, x: uint32): (i: nat)
    requires x in l
    ensures i < |l| && l[i] == x && x !in l[..i]
  {
    if l[0] == x then 0
    else
      var i := 1 + IndexOf(l[1..], x);
      assert l[..i] == [l[0]] + l[1..][..i - 1];
      i
  }

  /** Reference removal: the keys of l other than x, in their order. */
  function Without(l: seq<uint32>, x: uint32): seq<uint32> {
    if l == [] then []
    else if l[0] == x then Without(l[1..], x)
    else [l[0]] + Without(l[1..], x)
  }

  /** list.Remove(e) unlinks the element at x's position; without
      duplicates that is exactly the removal of x. */
  lemma {:induction false} RemoveAt(l: seq<uint32>, i: nat)
    requires NoDup(l) && i < |l|
    ensures l[..i] + l[i + 1..] == Without(l, l[i])
  {
    if i == 0 {
      WithoutAbsent(l[1..], l[0]);
    } else {
      var t := l[1..];
      assert NoDup(t);
      RemoveAt(t, i - 1);
      assert t[i - 1] == l[i];
      assert l[..i] + l[i + 1..] == [l[0]] + (t[..i - 1] + t[i..]);
    }
  }

  /** Removing a key that is not there changes nothing. */
  lemma {:induction false} WithoutAbsent(l: seq<uint32>, x: uint32)
    requires x !in l
    ensures Without(l, x) == l
  {
    if l != [] {
      WithoutAbsent(l[1..], x);
    }
  }

  /** Removal drops exactly x from the keys, keeps the others distinct, and
      shortens a list holding x by one. */
  lemma {:induction false} WithoutKeys(l: seq<uint32>, x: uint32)
    requires NoDup(l)
    ensures NoDup(Without(l, x)) && Elems(Without(l, x)) == Elems(l) - {x}
    ensures |Without(l, x)| == if x in l then |l| - 1 else |l|
  {
    if l != [] {
      var t := l[1..];
      assert NoDup(t);
      WithoutKeys(t, x);
      assert Elems(l) == {l[0]} + Elems(t);
      if l[0] == x {
        assert x !in t;
      } else {
        var w := Without(t, x);
        assert l[0] !in Elems(w);
        assert NoDup([l[0]] + w) by {
          forall i, j | 0 <= i < j < |[l[0]] + w|
            ensures ([l[0]] + w)[i] != ([l[0]] + w)[j]
          {
            if i == 0 {
              assert ([l[0]] + w)[j] == w[j - 1];
            }
          }
        }
        assert Elems([l[0]] + w) == {l[0]} + Elems(w);
      }
    }
  }

  /** The effect of Add: the new list, whether a key was evicted, and which. */
  datatype Added = Added(l: seq<uint32>, evicted: bool, victim: uint32)

  /** Add(x): a tracked key moves to the front; a new key is pushed to the
      front, and if the list then exceeds s its back element is dropped and
      reported. */
  function AddSpec(l: seq<uint32>, s: int, x: uint32): Added {
    if x in l then Added([x] + Without(l, x), false, 0)
    else
      var l1 := [x] + l;
      if |l1| > s then Added(l1[..|l1| - 1], true, l1[|l1| - 1])
      else Added(l1, false, 0)
  }

  /** GetEnd(offset): the key offset places from the back (a negative
      offset counts as 0), or the sentinel 0 past the front. */
  function EndAt(l: seq<uint32>, offset: int): uint32 {
    var j := if offset < 0 then 0 else offset;
    if j < |l| then l[|l| - 1 - j] else 0
  }

  /** Touching a tracked key moves it to the front and keeps the length,
      the keys and the rest of the order. */
  lemma AddTouch(l: seq<uint32>, s: int, x: uint32)
    requires NoDup(l) && x in l
    ensures var r := AddSpec(l, s, x);
      !r.evicted && r.victim == 0 && r.l[0] == x && r.l[1..] == Without(l, x)
      && |r.l| == |l| && Elems(r.l) == Elems(l) && NoDup(r.l)
  {
    var r := AddSpec(l, s, x);
    WithoutKeys(l, x);
    assert r.l[1..] == Without(l, x);
    assert Elems(r.l) == {x} + Elems(Without(l, x));
    FrontNoDup(x, Without(l, x));
  }

  /** A new key goes to the front; the back key of the grown list is evicted
      exactly when it outgrows s, and only the evicted key leaves. */
  lemma AddNew(l: seq<uint32>, s: int, x: uint32)
    requires NoDup(l) && x !in l
    ensures var r := AddSpec(l, s, x);
      (r.evicted <==> |l| + 1 > s)
      && (r.evicted ==> r.l + [r.victim] == [x] + l && r.victim == EndAt([x] + l, 0))
      && (!r.evicted ==> r.l == [x] + l && r.victim == 0)
      && NoDup(r.l)
      && Elems(r.l) == (Elems(l) + {x}) - (if r.evicted then {r.victim} else {})
  {
    var r := AddSpec(l, s, x);
    var l1 := [x] + l;
    FrontNoDup(x, l);
    assert Elems(l1) == {x} + Elems(l);
    if r.evicted {
      assert l1 == r.l + [r.victim];
      assert r.victim !in r.l;
      assert Elems(l1) == Elems(r.l) + {r.victim};
    }
  }

  /** A key not in w put in front of w keeps the keys distinct. */
  lemma FrontNoDup(x: uint32, w: seq<uint32>)
    requires NoDup(w) && x !in w
    ensures NoDup([x] + w)
  {
    forall i, j | 0 <= i < j < |[x] + w|
      ensures ([x] + w)[i] != ([x] + w)[j]
    {
      if i == 0 {
        assert ([x] + w)[j] == w[j - 1];
      }
    }
  }

  /** A list within its capacity stays within it. */
  lemma AddBound(l: seq<uint32>, s: int, x: uint32)
    requires NoDup(l) && |l| <= s
    ensures |AddSpec(l, s, x).l| <= s
  {
    if x in l {
      AddTouch(l, s, x);
    }
  }

  /** Add keeps the list duplicate free. */
  lemma AddKeys(l: seq<uint32>, s: int, x: uint32)
    requires NoDup(l)
    ensures NoDup(AddSpec(l, s, x).l)
  {
    if x in l {
      AddTouch(l, s, x);
    } else {
      AddNew(l, s, x);
    }
  }

  /** IsFull decides eviction: a new key evicts exactly when the list is
      full, and a list that is not full never evicts. */
  lemma FullEvicts(l: seq<uint32>, s: int, x: uint32)
    ensures AddSpec(l, s, x).evicted <==> x !in l && |l| >= s
  {
  }

  /** The key Add evicts from a non-empty full list is the tracked key
      GetEnd(0) reports. */
  lemma EvictsEnd(l: seq<uint32>, s: int, x: uint32)
    requires x !in l && |l| >= s && l != []
    ensures AddSpec(l, s, x).evicted && AddSpec(l, s, x).victim == EndAt(l, 0)
    ensures EndAt(l, 0) in l
  {
  }

  class LRU {
    /** The capacity. */
    var s: int
    /** The keys, most recently used first. */
    var l: seq<uint32>
    /** The keys of Go's map from key to list element. */
    var m: set<uint32>

    ghost predicate Valid()
      reads this
    {
      NoDup(l) && m == Elems(l)
    }

    /** NewLRU(size). */
    constructor (size: int)
      ensures Valid() && s == size && l == [] && m == {}
    {
      s := size;
      l := [];
      m := {};
    }

    /** IsFull(): whether admitting a new key would evict one. */
    predicate IsFull(): (full: bool)
      reads this
      ensures full ==> forall x :: x !in l ==> AddSpec(l, s, x).evicted
      ensures !full ==> forall x :: !AddSpec(l, s, x).evicted
    {
      |l| >= s
    }

    /** Add(mip): touch or admit mip, evicting the back key on overflow. */
    method Add(mip: uint32) returns (evicted: bool, victim: uint32)
      requires Valid()
      modifies this
      ensures Valid() && s == old(s)
      ensures Added(l, evicted, victim) == AddSpec(old(l), s, mip)
    {
      if mip in m {
        var i := IndexOf(l, mip);
        RemoveAt(l, i);
        AddTouch(l, s, mip);
        l := [mip] + (l[..i] + l[i + 1..]);
        return false, 0;
      }
      AddNew(l, s, mip);
      l := [mip] + l;
      m := m + {mip};
      if |l| > s {
        var o := l[|l| - 1];
        l := l[..|l| - 1];
        m := m - {o};
        return true, o;
      }
      return false, 0;
    }

    /** Delete(mip): untrack mip, reporting whether it was tracked. */
    method Delete(mip: uint32) returns (found: bool)
      requires Valid()
      modifies this
      ensures Valid() && s == old(s)
      ensures found == (mip in old(l)) && l == Without(old(l), mip)
    {
      WithoutKeys(l, mip);
      if mip in m {
        var i := IndexOf(l, mip);
        RemoveAt(l, i);
        l := l[..i] + l[i + 1..];
        m := m - {mip};
        return true;
      }
      WithoutAbsent(l, mip);
      return false;
    }

    /** GetEnd(offset): walk from the back towards the front. */
    method GetEnd(offset: int) returns (r: uint32)
      ensures r == EndAt(l, offset)
    {
      // e is the index of the current element, -1 once the walk fell off
      var e := |l| - 1;
      var i := 0;
      while i < offset && e >= 0
        invariant 0 <= i && e == |l| - 1 - i && e >= -1
        invariant i == 0 || i <= offset
      {
        e := e - 1;
        i := i + 1;
      }
      if e < 0 {
        return 0;
      }
      return l[e];
    }
  }
}
