/** The compression invariant of the trie of trie.go.

    Below the root every node has no child or two: Increment only ever hangs
    a new leaf beside an existing node (the split) or below a node that
    already has a child on the other side, and Delete lets the parent absorb
    the surviving sibling.  And every leaf ends exactly at bit 0: a new leaf
    always holds the whole rest of the key.  The root is exempt from both,
    since its own segment is never read. */
module TrieCompact {
  import opened Bits
  import opened Trie

  /** The subtree n, whose path ends after d bits, is compact: a node has no
      child and ends after all 32 bits, or has two compact children. */
  ghost predicate Full(n: Tree, d: nat)
    decreases n
  {
    match n
    case Nil => true
    case Node(_, _, _, c0, c1) =>
      if c0.Nil? && c1.Nil? then d == 32
      else c0.Node? && c1.Node? && Full(c0, d + c0.keylen) && Full(c1, d + c1.keylen)
  }

  /** Every child of the root, which starts at bit 31, is compact. */
  ghost predicate Compact(t: Tree) {
    t.Node? && (t.c0.Node? ==> Full(t.c0, t.c0.keylen)) && (t.c1.Node? ==> Full(t.c1, t.c1.keylen))
  }

  /** Whether a node is compact depends only on its children, not on its own
      segment or count. */
  lemma FullKids(n: Tree, n': Tree, d: nat)
    requires n.Node? && n'.Node? && n.c0 == n'.c0 && n.c1 == n'.c1
    ensures Full(n, d) == Full(n', d)
  {
  }

  /** A compact subtree ends no later than bit 0. */
  lemma {:induction false} FullDepth(n: Tree, d: nat)
    requires n.Node? && Full(n, d)
    ensures d <= 32
    decreases n
  {
    if n.c0.Node? {
      FullDepth(n.c0, d + n.c0.keylen);
    }
  }

  /** A compact subtree fixes the depth it ends at: all its leaves end at
      bit 0. */
  lemma {:induction false} FullUnique(n: Tree, d: nat, d': nat)
    requires n.Node? && Full(n, d) && Full(n, d')
    ensures d == d'
    decreases n
  {
    if n.c0.Node? {
      FullUnique(n.c0, d + n.c0.keylen, d' + n.c0.keylen);
    }
  }

  /** The new trie is compact. */
  lemma EmptyCompact()
    ensures Compact(Empty)
  {
  }

  // ---------------------------------------------------------------------
  // Increment

  /** Increment below a compact node keeps it compact. */
  lemma {:induction false} IncFromFull(n: Tree, d: nat, k: nat)
    requires n.Node? && d <= 32 && Kids(n, d) && Full(n, d)
    ensures Full(IncFrom(n, d, k), d)
    decreases 32 - d, 2
  {
    if d < 32 {
      var b := BitSet(k, 31 - d);
      var c := Child(n, b);
      if c.Node? {
        ResumeFull(c, d, k);
        var r := Resume(c, d, k);
        assert IncFrom(n, d, k) == SetChild(n, b, r);
        SetChildFull(n, d, b, r);
      }
    }
  }

  /** Putting a compact node in the place of one child of a compact node
      keeps it compact. */
  lemma SetChildFull(n: Tree, d: nat, b: bool, r: Tree)
    requires n.Node? && Full(n, d) && Child(n, b).Node? && r.Node? && Full(r, d + r.keylen)
    ensures Full(SetChild(n, b, r), d)
  {
  }

  /** Increment going on into the child c, or splitting it, keeps a compact
      subtree in c's place. */
  lemma {:induction false} ResumeFull(c: Tree, d: nat, k: nat)
    requires c.Node? && d < 32 && Below(c, d, BitSet(k, 31 - d)) && Full(c, d + c.keylen)
    ensures Resume(c, d, k).Node? && Full(Resume(c, d, k), d + Resume(c, d, k).keylen)
    decreases 32 - d, 1
  {
    var j := Agree(c, d, k);
    if j == c.keylen {
      DescendFull(c, d, k);
    } else {
      ResumeSplitFull(c, d, k);
    }
  }

  /** The case of ResumeFull where c is split. */
  lemma ResumeSplitFull(c: Tree, d: nat, k: nat)
    requires c.Node? && d < 32 && Below(c, d, BitSet(k, 31 - d)) && Full(c, d + c.keylen)
    requires Agree(c, d, k) < c.keylen
    ensures Resume(c, d, k).Node? && Full(Resume(c, d, k), d + Resume(c, d, k).keylen)
  {
    var j := Agree(c, d, k);
    SplitFull(c, c.keylen - j, d + j, k);
    assert Resume(c, d, k) == Split(c, c.keylen - j, d + j, k);
  }

  /** The case of ResumeFull where k follows all of c's segment. */
  lemma {:induction false} DescendFull(c: Tree, d: nat, k: nat)
    requires c.Node? && d < 32 && Below(c, d, BitSet(k, 31 - d)) && Full(c, d + c.keylen)
    requires Agree(c, d, k) == c.keylen
    ensures Resume(c, d, k).Node? && Full(Resume(c, d, k), d + Resume(c, d, k).keylen)
    decreases 32 - d, 0
  {
    IncFromFull(c, d + c.keylen, k);
    IncFromKeeps(c, d + c.keylen, k);
    assert Resume(c, d, k) == IncFrom(c, d + c.keylen, k);
  }

  /** Increment keeps the segment of the node it starts from. */
  lemma IncFromKeeps(n: Tree, d: nat, k: nat)
    requires n.Node? && d <= 32 && Kids(n, d)
    ensures IncFrom(n, d, k).Node? && IncFrom(n, d, k).keylen == n.keylen
  {
  }

  /** A split puts a two-child node in bt's place: bt, with its children,
      keeps its end, and the new leaf ends at bit 0. */
  lemma SplitFull(bt: Tree, complen: nat, pos: nat, k: nat)
    requires bt.Node? && 1 <= complen <= bt.keylen && pos < 32
    requires Full(bt, pos + complen)
    ensures Full(Split(bt, complen, pos, k), pos)
  {
    var r := Split(bt, complen, pos, k);
    var low := bt.(key := Low(bt.key, complen), keylen := complen);
    FullKids(bt, low, pos + complen);
    assert Child(r, BitSet(bt.key, complen - 1)) == low;
    assert Child(r, !BitSet(bt.key, complen - 1)) == Leaf(Low(k, 32 - pos), 32 - pos);
  }

  /** Increment keeps the trie compact. */
  lemma IncSpecCompact(t: Tree, k: nat)
    requires Wf(t) && Compact(t)
    ensures Compact(IncSpec(t, k))
  {
    var b := BitSet(k, 31);
    var c := Child(t, b);
    if c.Node? {
      ResumeFull(c, 0, k);
      var r := Resume(c, 0, k);
      assert IncSpec(t, k) == SetChild(t, b, r);
      assert Full(r, r.keylen);
    } else {
      assert IncSpec(t, k) == SetChild(t, b, Leaf(Low(k, 32), 32));
    }
  }

  // ---------------------------------------------------------------------
  // Delete

  /** Every node of a compact subtree is compact where it hangs. */
  lemma {:induction false} AtFullFrom(n: Tree, d: nat, p: seq<bool>)
    requires n.Node? && Full(n, d) && p != [] && At(n, p).Node?
    ensures Full(At(n, p), d + Offset(n, p) + At(n, p).keylen)
    decreases |p|
  {
    var c := Child(n, p[0]);
    if |p| > 1 {
      AtNil(p[1..]);
      AtFullFrom(c, d + c.keylen, p[1..]);
    }
  }

  /** Every node below the root of a compact trie is compact where it
      hangs. */
  lemma AtFull(t: Tree, p: seq<bool>)
    requires Compact(t) && p != [] && At(t, p).Node?
    ensures Full(At(t, p), Offset(t, p) + At(t, p).keylen)
  {
    var c := Child(t, p[0]);
    if |p| > 1 {
      AtNil(p[1..]);
      AtFullFrom(c, c.keylen, p[1..]);
    }
  }

  /** Replacing a node of a compact subtree by a node compact in the same
      place keeps the subtree compact. */
  lemma {:induction false} ReplaceFull(n: Tree, d: nat, p: seq<bool>, x: Tree)
    requires n.Node? && Full(n, d) && p != [] && At(n, p).Node?
    requires x.Node? && Full(x, d + Offset(n, p) + x.keylen)
    ensures Full(ReplaceAt(n, p, x), d)
    decreases |p|
  {
    var c := Child(n, p[0]);
    if |p| > 1 {
      AtNil(p[1..]);
      ReplaceFull(c, d + c.keylen, p[1..], x);
      var x' := ReplaceAt(c, p[1..], x);
      assert x'.keylen == c.keylen;
      assert ReplaceAt(n, p, x) == SetChild(n, p[0], x');
    } else {
      assert At(n, p) == c && Offset(n, p) == 0;
      assert ReplaceAt(n, p, x) == SetChild(n, p[0], x);
    }
  }

  /** The same below the root. */
  lemma CompactReplace(t: Tree, p: seq<bool>, x: Tree)
    requires Compact(t) && p != [] && At(t, p).Node?
    requires x.Node? && Full(x, Offset(t, p) + x.keylen)
    ensures Compact(ReplaceAt(t, p, x))
  {
    var c := Child(t, p[0]);
    if |p| > 1 {
      AtNil(p[1..]);
      ReplaceFull(c, c.keylen, p[1..], x);
      var x' := ReplaceAt(c, p[1..], x);
      assert x'.keylen == c.keylen;
      assert ReplaceAt(t, p, x) == SetChild(t, p[0], x');
    } else {
      assert At(t, p) == c && Offset(t, p) == 0;
      assert ReplaceAt(t, p, x) == SetChild(t, p[0], x);
    }
  }

  /** A compact non-root parent of a leaf has the leaf's sibling too; after
      the leaf is unlinked, the parent absorbs it and ends where the sibling
      did, which also keeps the uint8 keylen from wrapping. */
  lemma UnlinkFull(p: Tree, d: nat, dir: bool)
    requires p.Node? && Full(p, d + p.keylen)
    requires Child(p, dir).Node? && Child(p, dir).c0.Nil? && Child(p, dir).c1.Nil?
    ensures Full(Unlink(p, dir), d + Unlink(p, dir).keylen)
  {
    var s := Child(p, !dir);
    assert s.Node? && Full(s, d + p.keylen + s.keylen);
    FullDepth(s, d + p.keylen + s.keylen);
    var u := Unlink(p, dir);
    assert u.keylen == p.keylen + s.keylen;
    FullKids(u, s, d + p.keylen + s.keylen);
  }

  /** Delete(k) would make the root absorb the sibling of k's leaf while that
      sibling has children of its own. */
  ghost predicate RootAbsorbsInner(t: Tree, k: nat)
    requires Wf(t)
  {
    var o := Find(t, k, 0);
    o.Some? && |o.value| == 1 && At(t, o.value).c0.Nil? && At(t, o.value).c1.Nil?
    && var s := Child(t, !o.value[0]);
    s.Node? && (s.c0.Node? || s.c1.Node?)
  }

  /** Delete keeps the trie compact, except exactly when the root absorbs a
      sibling with children: those children then hang at bit 31 though they
      end where they did before, short of bit 0. */
  lemma DeleteCompact(t: Tree, k: nat)
    requires Wf(t) && Compact(t)
    ensures Compact(DeleteSpec(t, k)) <==> !RootAbsorbsInner(t, k)
  {
    var o := Find(t, k, 0);
    if o.Some? && At(t, o.value).c0.Nil? && At(t, o.value).c1.Nil? {
      var path := o.value;
      AtPrefix(t, path);
      var q := path[..|path| - 1];
      var dir := path[|path| - 1];
      var u := Unlink(At(t, q), dir);
      assert DeleteSpec(t, k) == ReplaceAt(t, q, u);
      if |path| == 1 {
        assert q == [] && path == [dir];
        RootDelete(t, dir);
      } else {
        AtFull(t, q);
        UnlinkFull(At(t, q), Offset(t, q), dir);
        CompactReplace(t, q, u);
      }
    }
  }

  /** Removing a leaf hanging at the root keeps the trie compact exactly when
      the sibling that the root absorbs has no children. */
  lemma RootDelete(t: Tree, dir: bool)
    requires Wf(t) && Compact(t) && Child(t, dir).Node?
    ensures var s := Child(t, !dir);
      Compact(Unlink(t, dir)) <==> !(s.Node? && (s.c0.Node? || s.c1.Node?))
  {
    var s := Child(t, !dir);
    if s.Node? && (s.c0.Node? || s.c1.Node?) {
      var c := s.c0;
      assert c.Node? && Full(c, s.keylen + c.keylen);
      assert Unlink(t, dir).c0 == c && s.keylen >= 1;
      if Full(c, c.keylen) {
        FullUnique(c, c.keylen, s.keylen + c.keylen);
      }
    }
  }
}
