/** What the operations of trie.go promise about the counts a lookup reports.

    Paths change when a node is split, so these properties are stated on the
    count a lookup finds rather than on the path to it: CountFrom walks k's
    path exactly as FindFrom does and reports the count of the node found. */
module TrieProps {
  import opened Bits
  import opened Trie

  /** The count of the node FindFrom reaches, if any. */
  ghost function CountFrom(n: Tree, d: nat, k: nat, L: nat): Option<nat>
    requires n.Node? && d <= L <= 32
    decreases L - d, 1
  {
    if d == L then Some(n.val)
    else
      var c := Child(n, BitSet(k, 31 - d));
      if c.Nil? then None else CountIn(c, d, k, L)
  }

  /** The count Continue reaches below c (an empty segment, which a
      well-formed trie does not have, ends the walk). */
  ghost function CountIn(c: Tree, d: nat, k: nat, L: nat): Option<nat>
    requires c.Node? && d < L <= 32
    decreases L - d, 0
  {
    if c.keylen == 0 || d + c.keylen > L || c.key != Seg(k, d, c.keylen) then None
    else CountFrom(c, d + c.keylen, k, L)
  }

  /** What Get(k, m) reports, as a count that may be absent. */
  ghost function Lookup(t: Tree, k: nat, m: nat): Option<nat>
    requires Wf(t)
  {
    if m >= 32 then None else CountFrom(t, 0, k, 32 - m)
  }

  /** The count at the end of a path found below n. */
  ghost function ValAt(n: Tree, o: Option<seq<bool>>): Option<nat>
    requires o.Some? ==> At(n, o.value).Node?
  {
    if o.Some? then Some(At(n, o.value).val) else None
  }

  lemma {:induction false} CountFromFind(n: Tree, d: nat, k: nat, L: nat)
    requires n.Node? && d <= L <= 32 && Kids(n, d)
    ensures CountFrom(n, d, k, L) == ValAt(n, FindFrom(n, d, k, L))
    decreases L - d, 1
  {
    if d < L {
      var b := BitSet(k, 31 - d);
      var c := Child(n, b);
      if c.Node? {
        CountInContinue(c, d, k, L);
        var o := Continue(c, d, k, L);
        if o.Some? {
          assert ([b] + o.value)[0] == b && ([b] + o.value)[1..] == o.value;
        }
      }
    }
  }

  lemma {:induction false} CountInContinue(c: Tree, d: nat, k: nat, L: nat)
    requires c.Node? && d < L <= 32 && Below(c, d, BitSet(k, 31 - d))
    ensures CountIn(c, d, k, L) == ValAt(c, Continue(c, d, k, L))
    decreases L - d, 0
  {
    if d + c.keylen <= L && c.key == Seg(k, d, c.keylen) {
      CountFromFind(c, d + c.keylen, k, L);
    }
  }

  /** Get(k, m) is present exactly when Lookup finds a count, and then
      reports that count; otherwise it reports (false, 0). */
  lemma GetSpecLookup(t: Tree, k: nat, m: nat)
    requires Wf(t)
    ensures GetSpec(t, k, m).0 == Lookup(t, k, m).Some?
    ensures GetSpec(t, k, m).1 == if Lookup(t, k, m).Some? then Lookup(t, k, m).value else 0
  {
    if m < 32 {
      CountFromFind(t, 0, k, 32 - m);
    }
  }

  /** sumParent(k, m) finds a node exactly when Get(k, m) does and then
      reports at least its count, adding the count of its parent, which
      exists because a found node is never the root; with m >= 32 both are
      absent. */
  lemma SumParentGet(t: Tree, k: nat, m: nat)
    requires Wf(t)
    ensures SumParentSpec(t, k, m).0 == GetSpec(t, k, m).0
    ensures SumParentSpec(t, k, m).1 >= GetSpec(t, k, m).1
    ensures !GetSpec(t, k, m).0 ==> SumParentSpec(t, k, m) == GetSpec(t, k, m) == (false, 0)
    ensures m >= 32 ==> !GetSpec(t, k, m).0
    ensures GetSpec(t, k, m).0 ==>
              var p := Find(t, k, m).value;
              p != [] && At(t, p[..|p| - 1]).Node? &&
              SumParentSpec(t, k, m).1 == GetSpec(t, k, m).1 + At(t, p[..|p| - 1]).val
  {
    var o := Find(t, k, m);
    if o.Some? {
      AtPrefix(t, o.value);
    }
  }

  // ---------------------------------------------------------------------
  // Increment

  /** How one increment of key k may change the answer of a lookup down to
      depth L: the full key k itself (hit) gains one, or appears with count
      1; any lookup that found a count keeps it; and only a masked lookup
      (full false) may newly find a node, the count-0 node of a split. */
  ghost predicate IncEffect(o: Option<nat>, o': Option<nat>, hit: bool, full: bool) {
    if hit then o' == Some(if o.Some? then o.value + 1 else 1)
    else if o.Some? then o' == o
    else o'.Some? ==> o'.value == 0 && !full
  }

  /** The leaf Increment creates below depth d holds the rest of k, so only
      k's full-key lookup reaches it. */
  lemma NewLeafCount(k: nat, k': nat, d: nat, L: nat)
    requires d < L <= 32 && Shr(k, 32 - d) == Shr(k', 32 - d)
    requires BitSet(k, 31 - d) == BitSet(k', 31 - d)
    ensures Below(Leaf(Low(k, 32 - d), 32 - d), d, BitSet(k', 31 - d))
    ensures CountIn(Leaf(Low(k, 32 - d), 32 - d), d, k', L)
            == if L == 32 && k' == k then Some(1) else None
  {
    LeafWf(k, d);
    if L == 32 {
      assert Seg(k', d, 32 - d) == Low(k', 32 - d);
      Decompose(k, 32 - d);
      Decompose(k', 32 - d);
    }
  }

  /** The leaf Increment creates when the walk finds no child at key bit i
      holds k mod 2^(i+1) in i+1 bits, with count 1. */
  lemma LeafHoldsRest(k: nat, i: nat)
    ensures Pow2(i + 1) > 0 && Leaf(Low(k, i + 1), i + 1) == Node(k % Pow2(i + 1), i + 1, 1, Nil, Nil)
    ensures Low(k, i + 1) < Pow2(i + 1)
  {
    LowMod(k, i + 1);
  }

  /** The other lookups are not disturbed when Increment goes on below c. */
  lemma {:induction false} IncCount(n: Tree, d: nat, k: nat, k': nat, L: nat)
    requires n.Node? && d <= L <= 32 && Kids(n, d) && Shr(k, 32 - d) == Shr(k', 32 - d)
    ensures IncFrom(n, d, k).Node?
    ensures IncEffect(CountFrom(n, d, k', L), CountFrom(IncFrom(n, d, k), d, k', L),
                      L == 32 && k' == k, L == 32)
    decreases 32 - d, 2
  {
    IncFromWf(n, d, k);
    if d < L {
      var b := BitSet(k, 31 - d);
      var c := Child(n, b);
      if BitSet(k', 31 - d) != b {
        assert k' != k;
      } else if c.Nil? {
        NewLeafCount(k, k', d, L);
      } else {
        ResumeCount(c, d, k, k', L);
      }
    }
  }

  lemma {:induction false} ResumeCount(c: Tree, d: nat, k: nat, k': nat, L: nat)
    requires c.Node? && d < L <= 32 && Below(c, d, BitSet(k, 31 - d))
    requires Shr(k, 32 - d) == Shr(k', 32 - d) && BitSet(k, 31 - d) == BitSet(k', 31 - d)
    ensures Resume(c, d, k).Node?
    ensures IncEffect(CountIn(c, d, k', L), CountIn(Resume(c, d, k), d, k', L),
                      L == 32 && k' == k, L == 32)
    decreases 32 - d, 1
  {
    if Agree(c, d, k) == c.keylen {
      DescendCount(c, d, k, k', L);
    } else {
      ResumeSplitCount(c, d, k, k', L);
    }
  }

  /** k follows all of c's segment: Increment goes on below c, and so do
      the lookups that reach c. */
  lemma {:induction false} DescendCount(c: Tree, d: nat, k: nat, k': nat, L: nat)
    requires c.Node? && d < L <= 32 && Below(c, d, BitSet(k, 31 - d))
    requires Shr(k, 32 - d) == Shr(k', 32 - d) && BitSet(k, 31 - d) == BitSet(k', 31 - d)
    requires Agree(c, d, k) == c.keylen
    ensures Resume(c, d, k).Node?
    ensures IncEffect(CountIn(c, d, k', L), CountIn(Resume(c, d, k), d, k', L),
                      L == 32 && k' == k, L == 32)
    decreases 32 - d, 0
  {
    var c' := IncFrom(c, d + c.keylen, k);
    assert Resume(c, d, k) == c';
    assert c.key == Seg(k, d, c.keylen);
    IncFromWf(c, d + c.keylen, k);
    assert c'.key == c.key && c'.keylen == c.keylen;
    if d + c.keylen <= L && c.key == Seg(k', d, c.keylen) {
      PrefixExtend(k, k', d, c.keylen);
      IncCount(c, d + c.keylen, k, k', L);
      assert CountIn(c', d, k', L) == CountFrom(c', d + c.keylen, k', L);
    } else {
      assert CountIn(c, d, k', L).None? && CountIn(c', d, k', L).None?;
    }
  }

  /** k parts from c's segment: c is split. */
  lemma ResumeSplitCount(c: Tree, d: nat, k: nat, k': nat, L: nat)
    requires c.Node? && d < L <= 32 && Below(c, d, BitSet(k, 31 - d))
    requires Shr(k, 32 - d) == Shr(k', 32 - d) && BitSet(k, 31 - d) == BitSet(k', 31 - d)
    requires Agree(c, d, k) < c.keylen
    ensures Resume(c, d, k).Node?
    ensures IncEffect(CountIn(c, d, k', L), CountIn(Resume(c, d, k), d, k', L),
                      L == 32 && k' == k, L == 32)
  {
    var j := Agree(c, d, k);
    var cl := c.keylen - j;
    assert Resume(c, d, k) == Split(c, cl, d + j, k);
    SegPrefix(k, d, j, cl);
    assert SplitPoint(c, d, j, k, k', L);
    SplitCount(c, d, j, k, k', L);
  }

  /** The facts a split of c below depth d at j bits relies on: j leading
      bits of c's segment agree with k, and the next one does not. */
  ghost predicate SplitPoint(c: Tree, d: nat, j: nat, k: nat, k': nat, L: nat)
  {
    c.Node? && d < L <= 32 && Below(c, d, BitSet(k, 31 - d)) && 1 <= j < c.keylen
    && Shr(k, 32 - d) == Shr(k', 32 - d)
    && Shr(c.key, c.keylen - j) == Seg(k, d, j)
    && BitSet(c.key, c.keylen - j - 1) != BitSet(k, 31 - (d + j))
  }

  /** A split disturbs no lookup either: the lookups that went through c now
      go through its high and low parts, and the new leaf is k's alone. */
  lemma SplitCount(c: Tree, d: nat, j: nat, k: nat, k': nat, L: nat)
    requires SplitPoint(c, d, j, k, k', L)
    ensures IncEffect(CountIn(c, d, k', L), CountIn(Split(c, c.keylen - j, d + j, k), d, k', L),
                      L == 32 && k' == k, L == 32)
  {
    var cl := c.keylen - j;
    var r := Split(c, cl, d + j, k);
    if !(d + j <= L && r.key == Seg(k', d, j)) {
      SplitMissHigh(c, d, j, k, k', L);
    } else if d + j == L {
      SplitAtHigh(c, d, j, k, k', L);
    } else if BitSet(k', 31 - (d + j)) == BitSet(k, 31 - (d + j)) {
      SplitIntoLeaf(c, d, j, k, k', L);
    } else {
      SplitIntoLow(c, d, j, k, k', L);
    }
  }

  /** A lookup that leaves k's path within the split's high part found
      nothing before and finds nothing after. */
  lemma SplitMissHigh(c: Tree, d: nat, j: nat, k: nat, k': nat, L: nat)
    requires SplitPoint(c, d, j, k, k', L)
    requires !(d + j <= L && Shr(c.key, c.keylen - j) == Seg(k', d, j))
    ensures CountIn(c, d, k', L).None? && !(L == 32 && k' == k)
    ensures CountIn(Split(c, c.keylen - j, d + j, k), d, k', L).None?
  {
    var cl := c.keylen - j;
    assert c.keylen == j + cl;
    SegPrefix(k', d, j, cl);
  }

  /** A masked lookup that ends where the split cuts c finds the new
      count-0 node; before, it ended inside c's segment. */
  lemma SplitAtHigh(c: Tree, d: nat, j: nat, k: nat, k': nat, L: nat)
    requires SplitPoint(c, d, j, k, k', L)
    requires d + j == L && Shr(c.key, c.keylen - j) == Seg(k', d, j)
    ensures CountIn(c, d, k', L).None? && L < 32
    ensures CountIn(Split(c, c.keylen - j, d + j, k), d, k', L) == Some(0)
  {
  }

  /** A lookup that follows k into the new leaf did not reach c before, and
      reaches the leaf only if it is k's own full-key lookup. */
  lemma SplitIntoLeaf(c: Tree, d: nat, j: nat, k: nat, k': nat, L: nat)
    requires SplitPoint(c, d, j, k, k', L)
    requires d + j < L && Shr(c.key, c.keylen - j) == Seg(k', d, j)
    requires BitSet(k', 31 - (d + j)) == BitSet(k, 31 - (d + j))
    ensures CountIn(c, d, k', L).None?
    ensures CountIn(Split(c, c.keylen - j, d + j, k), d, k', L)
            == if L == 32 && k' == k then Some(1) else None
  {
    var cl := c.keylen - j;
    SegBit(k', d, c.keylen, cl - 1);
    PrefixExtend(k, k', d, j);
    NewLeafCount(k, k', d + j, L);
    var r := Split(c, cl, d + j, k);
    assert CountIn(r, d, k', L) == CountIn(Child(r, BitSet(k, 31 - (d + j))), d + j, k', L);
  }

  /** A lookup that follows c's low part finds what it found below c. */
  lemma SplitIntoLow(c: Tree, d: nat, j: nat, k: nat, k': nat, L: nat)
    requires SplitPoint(c, d, j, k, k', L)
    requires d + j < L && Shr(c.key, c.keylen - j) == Seg(k', d, j)
    requires BitSet(k', 31 - (d + j)) != BitSet(k, 31 - (d + j))
    ensures k' != k
    ensures CountIn(Split(c, c.keylen - j, d + j, k), d, k', L) == CountIn(c, d, k', L)
  {
    var cl := c.keylen - j;
    var r := Split(c, cl, d + j, k);
    var low := c.(key := Low(c.key, cl), keylen := cl);
    assert c.keylen == j + cl;
    Decompose(c.key, cl);
    SegConcat(k', d, j, cl);
    SegPrefix(k', d, j, cl);
    assert CountIn(r, d, k', L) == CountIn(low, d + j, k', L);
    assert (low.key == Seg(k', d + j, cl)) == (c.key == Seg(k', d, c.keylen));
    if d + c.keylen <= L {
      assert CountFrom(low, d + c.keylen, k', L) == CountFrom(c, d + c.keylen, k', L);
    }
  }

  /** Keys below 2^32 all agree above bit 31. */
  lemma KeysAgreeAbove(k: uint32, k': uint32)
    ensures Shr(k, 32) == Shr(k', 32)
  {
    Pow2Is32();
    SmallValue(k, 32);
    SmallValue(k', 32);
  }

  /** After Increment(k), Get(k, 0) is present with one more than it reported
      before, which is 1 when k was absent. */
  lemma IncGetSelf(t: Tree, k: uint32)
    requires Wf(t)
    ensures Wf(IncSpec(t, k))
    ensures GetSpec(IncSpec(t, k), k, 0) == (true, GetSpec(t, k, 0).1 + 1)
  {
    IncSpecWf(t, k);
    KeysAgreeAbove(k, k);
    IncCount(t, 0, k, k, 32);
    GetSpecLookup(t, k, 0);
    GetSpecLookup(IncSpec(t, k), k, 0);
  }

  /** Increment(k) leaves Get(k', 0) of every other key as it was. */
  lemma IncGetOther(t: Tree, k: uint32, k': uint32)
    requires Wf(t) && k' != k
    ensures Wf(IncSpec(t, k))
    ensures GetSpec(IncSpec(t, k), k', 0) == GetSpec(t, k', 0)
  {
    IncSpecWf(t, k);
    KeysAgreeAbove(k, k');
    IncCount(t, 0, k, k', 32);
    GetSpecLookup(t, k', 0);
    GetSpecLookup(IncSpec(t, k), k', 0);
  }

  /** A masked lookup (m > 0) that was present reports the same count after
      Increment(k): only full-key nodes are incremented.  One that was absent
      may become present, on the count-0 node of a split. */
  lemma IncGetMasked(t: Tree, k: uint32, k': uint32, m: nat)
    requires Wf(t) && m > 0
    ensures Wf(IncSpec(t, k))
    ensures GetSpec(t, k', m).0 ==> GetSpec(IncSpec(t, k), k', m) == GetSpec(t, k', m)
    ensures !GetSpec(t, k', m).0 ==> GetSpec(IncSpec(t, k), k', m).1 == 0
  {
    IncSpecWf(t, k);
    GetSpecLookup(t, k', m);
    GetSpecLookup(IncSpec(t, k), k', m);
    if m < 32 {
      KeysAgreeAbove(k, k');
      IncCount(t, 0, k, k', 32 - m);
    }
  }

  /** Increment adds exactly one to the total count of the trie. */
  lemma IncSum(t: Tree, k: nat)
    requires Wf(t)
    ensures SumChildren(IncSpec(t, k)) == SumChildren(t) + 1
  {
    IncFromSum(t, 0, k);
  }

  lemma {:induction false} IncFromSum(n: Tree, d: nat, k: nat)
    requires n.Node? && d <= 32 && Kids(n, d)
    ensures SumChildren(IncFrom(n, d, k)) == SumChildren(n) + 1
    decreases 32 - d, 1
  {
    if d < 32 {
      var b := BitSet(k, 31 - d);
      var c := Child(n, b);
      if c.Node? {
        ResumeSum(c, d, k);
      }
      SetChildSum(n, b, IncFrom(n, d, k));
    }
  }

  lemma {:induction false} ResumeSum(c: Tree, d: nat, k: nat)
    requires c.Node? && d < 32 && Below(c, d, BitSet(k, 31 - d))
    ensures SumChildren(Resume(c, d, k)) == SumChildren(c) + 1
    decreases 32 - d, 0
  {
    var j := Agree(c, d, k);
    if j == c.keylen {
      IncFromSum(c, d + c.keylen, k);
      assert Resume(c, d, k) == IncFrom(c, d + c.keylen, k);
    } else {
      SplitSum(c, c.keylen - j, d + j, k);
      assert Resume(c, d, k) == Split(c, c.keylen - j, d + j, k);
    }
  }

  /** A split adds a count-0 node and a count-1 leaf, and moves bt's count
      and subtrees unchanged below them. */
  lemma SplitSum(bt: Tree, complen: nat, pos: nat, k: nat)
    requires bt.Node? && 1 <= complen <= bt.keylen && pos < 32
    ensures SumChildren(Split(bt, complen, pos, k)) == SumChildren(bt) + 1
  {
    var low := bt.(key := Low(bt.key, complen), keylen := complen);
    var leaf := Leaf(Low(k, 32 - pos), 32 - pos);
    assert SumChildren(low) == SumChildren(bt);
    assert SumChildren(leaf) == 1;
  }

  /** The total of a node is its count plus the totals of its two slots. */
  lemma SetChildSum(n: Tree, b: bool, r: Tree)
    requires n.Node? && r.Node? && r.val == n.val && Child(r, !b) == Child(n, !b)
    ensures SumChildren(r) == SumChildren(n) - SumChildren(Child(n, b)) + SumChildren(Child(r, b))
  {
  }

  // ---------------------------------------------------------------------
  // Masked lookup

  /** getBT(k, m) looks only at bits 31..m of k. */
  lemma FindMask(t: Tree, k: nat, k': nat, m: nat)
    requires Wf(t) && Shr(k, m) == Shr(k', m)
    ensures Find(t, k, m) == Find(t, k', m)
    ensures GetSpec(t, k, m) == GetSpec(t, k', m)
  {
    if m < 32 {
      FindFromMask(t, 0, k, k', 32 - m);
    }
  }

  lemma {:induction false} FindFromMask(n: Tree, d: nat, k: nat, k': nat, L: nat)
    requires n.Node? && d <= L <= 32 && Kids(n, d) && Shr(k, 32 - L) == Shr(k', 32 - L)
    ensures FindFrom(n, d, k, L) == FindFrom(n, d, k', L)
    decreases L - d
  {
    if d < L {
      ShrShr(k, 32 - L, L - 1 - d);
      ShrShr(k', 32 - L, L - 1 - d);
      assert BitSet(k, 31 - d) == BitSet(k', 31 - d);
      var c := Child(n, BitSet(k, 31 - d));
      if c.Node? && d + c.keylen <= L {
        SegAgree(k, k', 32 - L, d, c.keylen);
        FindFromMask(c, d + c.keylen, k, k', L);
      }
    }
  }

  // ---------------------------------------------------------------------
  // Split and absorb

  /** A split cuts bt's segment into a high part of keylen - complen bits
      and a low part of complen bits whose concatenation is bt's key, and
      absorbing the low part back into the high part restores bt. */
  lemma SplitAbsorb(bt: Tree, complen: nat, pos: nat, k: nat)
    requires bt.Node? && 1 <= complen <= bt.keylen <= 32 && bt.key < Pow2(bt.keylen) && pos < 32
    ensures var r := Split(bt, complen, pos, k);
      var low := Child(r, BitSet(bt.key, complen - 1));
      Shl(r.key, low.keylen) + low.key == bt.key && r.keylen + low.keylen == bt.keylen
      && Absorb(r, low) == bt
  {
    var low := bt.(key := Low(bt.key, complen), keylen := complen);
    assert Child(Split(bt, complen, pos, k), BitSet(bt.key, complen - 1)) == low;
    JoinSplit(bt.key, bt.keylen, complen);
  }

  /** Gluing the two halves of a split segment back together, in uint32 and
      uint8 arithmetic, gives the segment. */
  lemma JoinSplit(key: nat, keylen: nat, complen: nat)
    requires 1 <= complen <= keylen <= 32 && key < Pow2(keylen)
    ensures Shl(Shr(key, complen), complen) + Low(key, complen) == key
    ensures Low(Shl(Shr(key, complen), complen) + Low(key, complen), 32) == key
    ensures (keylen - complen + complen) % 0x100 == keylen
  {
    Decompose(key, complen);
    Pow2Le(keylen, 32);
    Pow2Is32();
    SmallValue(key, 32);
  }

  /** Deleting the leaf a split has just created gives back the split node,
      with the leaf's count folded into it. */
  lemma UnlinkSplit(bt: Tree, complen: nat, pos: nat, k: nat)
    requires bt.Node? && 1 <= complen <= bt.keylen <= 32 && bt.key < Pow2(bt.keylen) && pos < 32
    ensures Unlink(Split(bt, complen, pos, k), !BitSet(bt.key, complen - 1)) == bt.(val := bt.val + 1)
  {
    var r := Split(bt, complen, pos, k);
    var dir := !BitSet(bt.key, complen - 1);
    var low := bt.(key := Low(bt.key, complen), keylen := complen);
    assert Child(r, !dir) == low && Child(r, dir).val == 1;
    var p0 := SetChild(r, dir, Nil);
    var p1 := p0.(val := 1);
    assert Unlink(r, dir) == Absorb(p1, low);
    JoinSplit(bt.key, bt.keylen, complen);
  }

  // ---------------------------------------------------------------------
  // Delete

  /** Replacing a node changes the total by the difference of the two. */
  lemma {:induction false} ReplaceSum(t: Tree, p: seq<bool>, x: Tree)
    requires At(t, p).Node?
    ensures SumChildren(ReplaceAt(t, p, x)) == SumChildren(t) - SumChildren(At(t, p)) + SumChildren(x)
    decreases |p|
  {
    if p != [] {
      var c := Child(t, p[0]);
      ReplaceSum(c, p[1..], x);
      SetChildSum(t, p[0], ReplaceAt(t, p, x));
    }
  }

  /** Unlinking a childless node moves its count to the parent, and an
      absorbed sibling brings its own count and subtrees along. */
  lemma UnlinkSum(p: Tree, dir: bool)
    requires p.Node? && Child(p, dir).Node? && Child(p, dir).c0.Nil? && Child(p, dir).c1.Nil?
    ensures SumChildren(Unlink(p, dir)) == SumChildren(p)
  {
    assert SumChildren(Child(p, dir)) == Child(p, dir).val;
  }

  /** Delete keeps the total count. */
  lemma DeleteSum(t: Tree, k: nat)
    requires Wf(t)
    ensures SumChildren(DeleteSpec(t, k)) == SumChildren(t)
  {
    var o := Find(t, k, 0);
    if o.Some? {
      var path := o.value;
      var v := At(t, path);
      if !(v.c0.Node? || v.c1.Node?) {
        AtPrefix(t, path);
        var q := path[..|path| - 1];
        var dir := path[|path| - 1];
        UnlinkSum(At(t, q), dir);
        ReplaceSum(t, q, Unlink(At(t, q), dir));
      }
    }
  }

  /** The number of nodes of a subtree. */
  function Size(t: Tree): nat {
    if t.Nil? then 0 else 1 + Size(t.c0) + Size(t.c1)
  }

  /** Replacing a node changes the node count by the difference of the two. */
  lemma {:induction false} ReplaceSize(t: Tree, p: seq<bool>, x: Tree)
    requires At(t, p).Node?
    ensures Size(ReplaceAt(t, p, x)) + Size(At(t, p)) == Size(t) + Size(x)
    decreases |p|
  {
    if p != [] {
      var c := Child(t, p[0]);
      ReplaceSize(c, p[1..], x);
      var r := ReplaceAt(t, p, x);
      assert Size(r) == 1 + Size(Child(r, p[0])) + Size(Child(t, !p[0]));
      assert Size(t) == 1 + Size(c) + Size(Child(t, !p[0]));
    }
  }

  /** Unlinking a childless node removes it, and an absorbed sibling merges
      into its parent: the parent's subtree loses nodes. */
  lemma UnlinkSize(p: Tree, dir: bool)
    requires p.Node? && Child(p, dir).Node? && Child(p, dir).c0.Nil? && Child(p, dir).c1.Nil?
    ensures Size(Unlink(p, dir)) < Size(p)
  {
    assert Size(Child(p, dir)) == 1;
    assert Size(p) == 2 + Size(Child(p, !dir));
  }

  /** Delete(k) changes the trie exactly when k's full-key node exists and
      has no children; otherwise it leaves the trie as it is. */
  lemma DeleteChanges(t: Tree, k: nat)
    requires Wf(t)
    ensures DeleteSpec(t, k) != t <==>
      Find(t, k, 0).Some? && At(t, Find(t, k, 0).value).c0.Nil? && At(t, Find(t, k, 0).value).c1.Nil?
  {
    var o := Find(t, k, 0);
    if o.Some? && At(t, o.value).c0.Nil? && At(t, o.value).c1.Nil? {
      DeleteLeaf(t, k);
      var path := o.value;
      var q := path[..|path| - 1];
      var u := Unlink(At(t, q), path[|path| - 1]);
      UnlinkSize(At(t, q), path[|path| - 1]);
      ReplaceSize(t, q, u);
      assert Size(DeleteSpec(t, k)) < Size(t);
    }
  }

  /** When the parent of k's leaf is not the root, Get(k, 0) is absent after
      Delete(k). */
  lemma DeleteGone(t: Tree, k: nat)
    requires Wf(t) && Find(t, k, 0).Some? && |Find(t, k, 0).value| >= 2
    requires At(t, Find(t, k, 0).value).c0.Nil? && At(t, Find(t, k, 0).value).c1.Nil?
    ensures Wf(DeleteSpec(t, k))
    ensures GetSpec(DeleteSpec(t, k), k, 0) == (false, 0)
  {
    DeleteSpecWf(t, k);
    DeleteLeaf(t, k);
    UnlinkOnPath(t, 0, k, 32, Find(t, k, 0).value);
    GetSpecLookup(DeleteSpec(t, k), k, 0);
  }

  /** Unlinking the childless node a lookup finds, below a parent that is
      not the top node, makes the lookup fail. */
  lemma {:induction false} UnlinkOnPath(n: Tree, d: nat, k: nat, L: nat, path: seq<bool>)
    requires n.Node? && d <= L <= 32 && Kids(n, d) && FindFrom(n, d, k, L) == Some(path)
    requires |path| >= 2 && At(n, path).c0.Nil? && At(n, path).c1.Nil?
    ensures At(n, path[..|path| - 1]).Node?
    ensures Child(At(n, path[..|path| - 1]), path[|path| - 1]) == At(n, path)
    ensures var q := path[..|path| - 1];
      CountFrom(ReplaceAt(n, q, Unlink(At(n, q), path[|path| - 1])), d, k, L).None?
    decreases |path|
  {
    AtPrefix(n, path);
    var b := BitSet(k, 31 - d);
    var c := Child(n, b);
    var rest := Continue(c, d, k, L).value;
    assert path == [b] + rest;
    var q := path[..|path| - 1];
    var dir := path[|path| - 1];
    var x := Unlink(At(n, q), dir);
    var d1 := d + c.keylen;
    if |rest| == 1 {
      assert q == [b] && rest == [dir];
      UnlinkBelowTop(n, d, k, L, dir);
    } else {
      var q' := rest[..|rest| - 1];
      assert q == [b] + q' && q[1..] == q' && rest[|rest| - 1] == dir;
      assert At(n, q) == At(c, q');
      UnlinkOnPath(c, d1, k, L, rest);
      ReplaceTop(c, q', x);
    }
  }

  /** The case where the parent of the removed node is n's child on k's
      path. */
  lemma UnlinkBelowTop(n: Tree, d: nat, k: nat, L: nat, dir: bool)
    requires n.Node? && d < L <= 32 && Kids(n, d) && Child(n, BitSet(k, 31 - d)).Node?
    requires Child(Child(n, BitSet(k, 31 - d)), dir).Node?
    requires Continue(Child(n, BitSet(k, 31 - d)), d, k, L) == Some([dir])
    ensures var b := BitSet(k, 31 - d);
      CountFrom(ReplaceAt(n, [b], Unlink(Child(n, b), dir)), d, k, L).None?
  {
    var b := BitSet(k, 31 - d);
    assert [b][1..] == [];
    UnlinkMisses(Child(n, b), d, k, L, dir);
  }

  /** Replacing a node strictly below t leaves t's own fields alone. */
  lemma ReplaceTop(t: Tree, p: seq<bool>, x: Tree)
    requires At(t, p).Node? && p != []
    ensures ReplaceAt(t, p, x).Node?
    ensures ReplaceAt(t, p, x).key == t.key && ReplaceAt(t, p, x).keylen == t.keylen
    ensures ReplaceAt(t, p, x).val == t.val
  {
  }

  /** The node the lookup of k passes just before a childless full-key node
      in its slot dir: once that node is unlinked, the lookup misses. */
  lemma UnlinkMisses(c: Tree, d: nat, k: nat, L: nat, dir: bool)
    requires c.Node? && d < L <= 32 && Below(c, d, BitSet(k, 31 - d))
    requires Child(c, dir).Node? && Continue(c, d, k, L) == Some([dir])
    ensures CountIn(Unlink(c, dir), d, k, L).None?
  {
    var d1 := d + c.keylen;
    assert c.key == Seg(k, d, c.keylen) && d1 < L && BitSet(k, 31 - d1) == dir;
    var s := Child(c, !dir);
    if s.Node? {
      assert Below(s, d1, !dir);
      AbsorbMisses(c, d, k, L, dir);
    }
  }

  /** Absorbing the sibling appends a segment whose first bit is not k's
      next bit, so the joined segment is not k's. */
  lemma AbsorbMisses(c: Tree, d: nat, k: nat, L: nat, dir: bool)
    requires c.Node? && d + c.keylen < L <= 32 && c.key == Seg(k, d, c.keylen) && c.key < Pow2(c.keylen)
    requires BitSet(k, 31 - (d + c.keylen)) == dir && Child(c, dir).Node? && Child(c, !dir).Node?
    requires Slot(Child(c, !dir).key, Child(c, !dir).keylen, d + c.keylen, !dir)
    ensures CountIn(Unlink(c, dir), d, k, L).None?
  {
    var s := Child(c, !dir);
    var u := Unlink(c, dir);
    assert u.keylen == c.keylen + s.keylen && u.key == Low(Shl(c.key, s.keylen) + s.key, 32);
    if d + u.keylen <= L {
      JoinedKeyDiffers(c.key, c.keylen, s.key, s.keylen, k, d);
    }
  }

  /** Delete of an existing childless full-key node unlinks it from its
      parent. */
  lemma DeleteLeaf(t: Tree, k: nat)
    requires Wf(t) && Find(t, k, 0).Some?
    requires At(t, Find(t, k, 0).value).c0.Nil? && At(t, Find(t, k, 0).value).c1.Nil?
    ensures var path := Find(t, k, 0).value;
      At(t, path[..|path| - 1]).Node? &&
      Child(At(t, path[..|path| - 1]), path[|path| - 1]) == At(t, path) &&
      DeleteSpec(t, k) == ReplaceAt(t, path[..|path| - 1], Unlink(At(t, path[..|path| - 1]), path[|path| - 1]))
  {
    AtPrefix(t, Find(t, k, 0).value);
  }

  /** The segment p.key followed by a segment s.key whose top bit is not k's
      next bit is not k's segment. */
  lemma JoinedKeyDiffers(pk: nat, a: nat, sk: nat, b: nat, k: nat, dp: nat)
    requires dp + a + b <= 32 && pk == Seg(k, dp, a) && pk < Pow2(a) && 1 <= b && sk < Pow2(b)
    requires BitSet(sk, b - 1) != BitSet(k, 31 - (dp + a))
    ensures Low(Shl(pk, b) + sk, 32) != Seg(k, dp, a + b)
  {
    ConcatBound(pk, sk, a, b);
    Pow2Le(a + b, 32);
    Pow2Is32();
    SmallValue(Shl(pk, b) + sk, 32);
    SegPrefix(k, dp, a, b);
    SegBound(k, dp + a, b);
    SegTopBit(k, dp + a, b);
    if Shl(pk, b) + sk == Seg(k, dp, a + b) {
      Compose(pk, sk, b);
    }
  }

  /** Below n, whose path ends after d bits, every node would still fit sh
      bits further down: no path reaches bit 0, so no full-key lookup finds a
      node there. */
  lemma {:induction false} ShallowFind(n: Tree, d: nat, k: nat, sh: nat)
    requires n.Node? && 1 <= sh && d + sh <= 32 && Kids(n, d) && Kids(n, d + sh)
    ensures FindFrom(n, d, k, 32).None?
    decreases 32 - d, 1
  {
    var c := Child(n, BitSet(k, 31 - d));
    if c.Node? {
      ShallowContinue(c, d, k, sh);
    }
  }

  lemma {:induction false} ShallowContinue(c: Tree, d: nat, k: nat, sh: nat)
    requires c.Node? && 1 <= sh && d + sh <= 32
    requires Below(c, d, BitSet(k, 31 - d)) && Below(c, d + sh, BitSet(k, 31 - d))
    ensures Continue(c, d, k, 32).None?
    decreases 32 - d, 0
  {
    if d + c.keylen <= 32 && c.key == Seg(k, d, c.keylen) {
      assert d + sh + c.keylen == d + c.keylen + sh;
      ShallowFind(c, d + c.keylen, k, sh);
    }
  }

  /** When the parent of k's leaf is the root and any sibling survives, the
      root absorbs it and its children come to hang at bit 31, though they
      end as far up as before, by the sibling's keylen >= 1 bits: after
      Delete(k) no key at all is present. */
  lemma RootAbsorbLosesAll(t: Tree, k: nat, dir: bool)
    requires Wf(t) && Find(t, k, 0) == Some([dir])
    requires Child(t, dir).c0.Nil? && Child(t, dir).c1.Nil? && Child(t, !dir).Node?
    ensures Wf(DeleteSpec(t, k))
    ensures forall k' :: !GetSpec(DeleteSpec(t, k), k', 0).0
  {
    DeleteSpecWf(t, k);
    var s := Child(t, !dir);
    assert [dir][..0] == [];
    var u := DeleteSpec(t, k);
    assert u == Unlink(t, dir);
    assert u.c0 == s.c0 && u.c1 == s.c1 && s.keylen >= 1;
    forall k': nat
      ensures !GetSpec(u, k', 0).0
    {
      ShallowFind(u, 0, k', s.keylen);
    }
  }

  /** When the parent of k's leaf is the root and a sibling survives, the
      root absorbs it; walks never read the root's own segment, so a
      childless sibling's key, present before, is absent afterwards. */
  lemma RootDeleteLosesSibling(t: Tree, k: nat, dir: bool)
    requires Wf(t) && Find(t, k, 0) == Some([dir])
    requires Child(t, dir).c0.Nil? && Child(t, dir).c1.Nil?
    requires Child(t, !dir).Node? && Child(t, !dir).keylen == 32
    requires Child(t, !dir).c0.Nil? && Child(t, !dir).c1.Nil?
    ensures Wf(DeleteSpec(t, k))
    ensures GetSpec(t, Child(t, !dir).key, 0).0
    ensures forall k' :: !GetSpec(DeleteSpec(t, k), k', 0).0
  {
    DeleteSpecWf(t, k);
    var s := Child(t, !dir);
    assert [dir][..0] == [];
    assert DeleteSpec(t, k) == Unlink(t, dir);
    SmallValue(s.key, 32);
    assert Seg(s.key, 0, 32) == s.key;
    SegTopBit(s.key, 0, 32);
    assert FindFrom(s, 32, s.key, 32) == Some([]);
    assert FindFrom(t, 0, s.key, 32).Some?;
  }
}
