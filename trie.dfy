/** The path-compressed binary trie of trie.go (type BinTrie).

    A node carries a segment of `keylen` bits in `key`, a count `val` and two
    children selected by the next key bit.  The root's own segment is never
    consulted: every walk starts by descending into a child of the root.  A
    node is addressed by its path, the sequence of child slots (false for c0,
    true for c1) from the root; the parent back-pointer of the Go nodes is the
    path with its last slot removed, and rewriting linked nodes in place is
    replacing the node at a path. */
module Trie {
  import opened Bits

  datatype Option<T> = None | Some(value: T)

  /** Nil is Go's nil child pointer. */
  datatype Tree = Nil | Node(key: nat, keylen: nat, val: nat, c0: Tree, c1: Tree)

  /** The root of new(BinTrie): all fields zero, no children. */
  const Empty: Tree := Node(0, 0, 0, Nil, Nil)

  function Child(n: Tree, b: bool): Tree
    requires n.Node?
  {
    if b then n.c1 else n.c0
  }

  function SetChild(n: Tree, b: bool, c: Tree): (r: Tree)
    requires n.Node?
    ensures r.Node? && Child(r, b) == c && Child(r, !b) == Child(n, !b)
    ensures r.key == n.key && r.keylen == n.keylen && r.val == n.val
  {
    if b then n.(c1 := c) else n.(c0 := c)
  }

  /** A freshly created node holding the rest of a key, with count 1. */
  function Leaf(key: nat, keylen: nat): Tree {
    Node(key, keylen, 1, Nil, Nil)
  }

  /** A segment of keylen bits that fits below depth d and whose first bit
      is b: a non-empty segment that fits in the 32 bits, and a key below
      2^keylen whose top bit is the slot's bit. */
  ghost predicate Slot(key: nat, keylen: nat, d: nat, b: bool) {
    1 <= keylen && d + keylen <= 32 && key < Pow2(keylen) && BitSet(key, keylen - 1) == b
  }

  /** Well-formedness of a node hanging in slot b below a path that has
      consumed d key bits: a non-empty segment that fits in the 32 bits, a key
      below 2^keylen whose top bit is the slot's bit, and well-formed children. */
  ghost predicate Below(n: Tree, d: nat, b: bool)
    decreases n
  {
    match n
    case Nil => true
    case Node(key, keylen, _, c0, c1) =>
      Slot(key, keylen, d, b) && Below(c0, d + keylen, false) && Below(c1, d + keylen, true)
  }

  /** The children of n, whose own path ends after d bits, are well formed. */
  ghost predicate Kids(n: Tree, d: nat)
    requires n.Node?
  {
    Below(n.c0, d, false) && Below(n.c1, d, true)
  }

  /** A well-formed trie: the root's key is a uint32 and its keylen a uint8,
      and since the root's segment is skipped, its children start at depth 0. */
  ghost predicate Wf(t: Tree) {
    t.Node? && t.key < 0x1_0000_0000 && t.keylen < 0x100 && Kids(t, 0)
  }

  /** Every node strictly below n has a non-empty segment, so that a walk
      entering a child always has a bit to compare. */
  ghost predicate Segmented(n: Tree)
    decreases n
  {
    match n
    case Nil => true
    case Node(_, _, _, c0, c1) =>
      (c0.Node? ==> c0.keylen >= 1) && (c1.Node? ==> c1.keylen >= 1)
      && Segmented(c0) && Segmented(c1)
  }

  /** The node at path p, or Nil if the path leaves the trie. */
  function At(t: Tree, p: seq<bool>): Tree
    decreases |p|
  {
    if p == [] then t
    else if t.Nil? then Nil
    else At(Child(t, p[0]), p[1..])
  }

  /** t with the node at path p replaced by s. */
  function ReplaceAt(t: Tree, p: seq<bool>, s: Tree): Tree
    requires At(t, p).Node?
    decreases |p|
  {
    if p == [] then s
    else SetChild(t, p[0], ReplaceAt(Child(t, p[0]), p[1..], s))
  }

  /** The trie seen from one of its nodes: the chain of its ancestors, each
      with the child slot the walk took and the sibling it left, as the
      parent pointers of trie.go link them. */
  datatype Ctx = Top | Down(up: Ctx, key: nat, keylen: nat, val: nat, sibling: Tree, dir: bool)

  /** The ancestors of bt's child in slot b. */
  function Enter(up: Ctx, bt: Tree, b: bool): Ctx
    requires bt.Node?
  {
    Down(up, bt.key, bt.keylen, bt.val, Child(bt, !b), b)
  }

  /** The whole trie with s put in the place z points to. */
  function Plug(z: Ctx, s: Tree): Tree
    decreases z
  {
    match z
    case Top => s
    case Down(up, key, keylen, val, sib, b) =>
      Plug(up, if b then Node(key, keylen, val, sib, s) else Node(key, keylen, val, s, sib))
  }

  /** Number of key bits consumed by the nodes strictly between t and the node
      at the non-empty path p. */
  ghost function Offset(t: Tree, p: seq<bool>): nat
    requires At(t, p).Node? && p != []
    decreases |p|
  {
    if |p| == 1 then 0
    else
      AtNil(p[1..]);
      Child(t, p[0]).keylen + Offset(Child(t, p[0]), p[1..])
  }

  lemma AtNil(p: seq<bool>)
    requires p != []
    ensures At(Nil, p) == Nil
  {
  }

  function Prepend(b: bool, o: Option<seq<bool>>): Option<seq<bool>> {
    if o.Some? then Some([b] + o.value) else None
  }

  function Lift(p: seq<bool>, o: Option<seq<bool>>): Option<seq<bool>> {
    if o.Some? then Some(p + o.value) else None
  }

  /** Reference search, node by node: below n, whose path ends after d bits,
      find the node whose path ends after exactly L bits and whose segments
      spell bits 31..32-L of k. */
  ghost function FindFrom(n: Tree, d: nat, k: nat, L: nat): (r: Option<seq<bool>>)
    requires n.Node? && d <= L <= 32 && Kids(n, d)
    ensures r.Some? ==> At(n, r.value).Node? && (r.value == [] <==> d == L)
    decreases L - d, 1
  {
    if d == L then Some([])
    else
      var b := BitSet(k, 31 - d);
      var c := Child(n, b);
      if c.Nil? then None else Prepend(b, Continue(c, d, k, L))
  }

  /** c hangs below depth d on k's path: its whole segment must lie within the
      first L bits and equal k's bits there; then the search goes on below c. */
  ghost function Continue(c: Tree, d: nat, k: nat, L: nat): (r: Option<seq<bool>>)
    requires c.Node? && d < L <= 32 && Below(c, d, BitSet(k, 31 - d))
    ensures r.Some? ==> At(c, r.value).Node?
    decreases L - d, 0
  {
    if d + c.keylen > L || c.key != Seg(k, d, c.keylen) then None
    else FindFrom(c, d + c.keylen, k, L)
  }

  /** getBT(k, m): the node whose path covers exactly bits 31..m of k.  With
      m >= 32 no bit is compared and the root is never reported. */
  ghost function Find(t: Tree, k: nat, m: nat): (r: Option<seq<bool>>)
    requires Wf(t)
    ensures r.Some? ==> At(t, r.value).Node? && r.value != []
  {
    if m >= 32 then None else FindFrom(t, 0, k, 32 - m)
  }

  /** Get(k, m): (true, count) of the node Find reports, else (false, 0). */
  ghost function GetSpec(t: Tree, k: nat, m: nat): (bool, nat)
    requires Wf(t)
  {
    match Find(t, k, m)
    case Some(p) => (true, At(t, p).val)
    case None => (false, 0)
  }

  /** sumParent(k, m): the found node's count plus its parent's count. */
  ghost function SumParentSpec(t: Tree, k: nat, m: nat): (bool, nat)
    requires Wf(t)
  {
    match Find(t, k, m)
    case Some(p) =>
      AtPrefix(t, p);
      (true, At(t, p).val + At(t, p[..|p| - 1]).val)
    case None => (false, 0)
  }

  /** sumChildren: the counts of a subtree added up; nil counts 0. */
  function SumChildren(t: Tree): (r: nat)
    ensures t.Node? ==> t.val <= r && SumChildren(t.c0) <= r && SumChildren(t.c1) <= r
  {
    if t.Nil? then 0 else t.val + SumChildren(t.c0) + SumChildren(t.c1)
  }

  /** The split of Increment: bt's segment disagrees with k at key bit 31-pos,
      with complen bits of the segment (the mismatched one included) left.  A
      new count-0 node takes bt's place carrying the matched high bits; bt keeps
      the low complen bits, and a new leaf holds the rest of k with count 1. */
  function Split(bt: Tree, complen: nat, pos: nat, k: nat): (r: Tree)
    requires bt.Node? && 1 <= complen <= bt.keylen && pos < 32
    ensures r.Node? && r.val == 0 && r.keylen + complen == bt.keylen
    ensures var low := Child(r, BitSet(bt.key, complen - 1));
      low.Node? && low.keylen == complen && low.val == bt.val && low.c0 == bt.c0 && low.c1 == bt.c1
    ensures Child(r, !BitSet(bt.key, complen - 1)) == Leaf(Low(k, 32 - pos), 32 - pos)
  {
    var nbt := Node(Shr(bt.key, complen), bt.keylen - complen, 0, Nil, Nil);
    var low := bt.(key := Low(bt.key, complen), keylen := complen);
    var leaf := Leaf(Low(k, 32 - pos), 32 - pos);
    if BitSet(bt.key, complen - 1) then nbt.(c0 := leaf, c1 := low)
    else nbt.(c0 := low, c1 := leaf)
  }

  /** Reference increment, node by node: n's path ends after d bits and
      matches k so far. */
  ghost function IncFrom(n: Tree, d: nat, k: nat): Tree
    requires n.Node? && d <= 32 && Kids(n, d)
    decreases 32 - d, 1
  {
    if d == 32 then n.(val := n.val + 1)
    else
      var b := BitSet(k, 31 - d);
      var c := Child(n, b);
      if c.Nil? then SetChild(n, b, Leaf(Low(k, 32 - d), 32 - d))
      else SetChild(n, b, Resume(c, d, k))
  }

  /** How many leading bits of c's segment k's path follows; at least the
      first, since c hangs in the slot of k's bit 31 - d. */
  ghost function Agree(c: Tree, d: nat, k: nat): (j: nat)
    requires c.Node? && d < 32 && Below(c, d, BitSet(k, 31 - d))
    ensures 1 <= j <= c.keylen
    ensures Shr(c.key, c.keylen - j) == Shr(Seg(k, d, c.keylen), c.keylen - j)
    ensures j < c.keylen ==> BitSet(c.key, c.keylen - j - 1) != BitSet(k, 31 - d - j)
  {
    SegBound(k, d, c.keylen);
    SmallValue(c.key, c.keylen);
    SmallValue(Seg(k, d, c.keylen), c.keylen);
    SegTopBit(k, d, c.keylen);
    var j := CommonPrefix(c.key, Seg(k, d, c.keylen), c.keylen);
    if j < c.keylen then
      SegBit(k, d, c.keylen, c.keylen - j - 1);
      j
    else j
  }

  /** c hangs below depth d on k's path: if k agrees with all of c's segment
      the increment goes on below c, otherwise c is split where they part. */
  ghost function Resume(c: Tree, d: nat, k: nat): Tree
    requires c.Node? && d < 32 && Below(c, d, BitSet(k, 31 - d))
    decreases 32 - d, 0
  {
    var j := Agree(c, d, k);
    if j == c.keylen then IncFrom(c, d + c.keylen, k)
    else Split(c, c.keylen - j, d + j, k)
  }

  ghost function IncSpec(t: Tree, k: nat): Tree
    requires Wf(t)
  {
    IncFrom(t, 0, k)
  }

  /** Absorption: p takes over its only child s, adding s's count, adopting
      its children and appending s's segment to its own, in uint32 and uint8
      arithmetic as the Go fields are. */
  function Absorb(p: Tree, s: Tree): (r: Tree)
    requires p.Node? && s.Node?
    ensures r.Node? && r.c0 == s.c0 && r.c1 == s.c1
    ensures SumChildren(r) == p.val + SumChildren(s)
  {
    Node(Low(Shl(p.key, s.keylen) + s.key, 32), (p.keylen + s.keylen) % 0x100,
         p.val + s.val, s.c0, s.c1)
  }

  /** The parent after the leaf in slot dir is removed: the leaf's count is
      added to the parent, and a surviving sibling is absorbed. */
  function Unlink(p: Tree, dir: bool): (r: Tree)
    requires p.Node? && Child(p, dir).Node?
    ensures r.Node? && var s := Child(p, !dir);
      (s.Nil? ==> r.c0.Nil? && r.c1.Nil?) && (s.Node? ==> r.c0 == s.c0 && r.c1 == s.c1)
    ensures SumChildren(r) + SumChildren(Child(p, dir)) == SumChildren(p) + Child(p, dir).val
  {
    var v := Child(p, dir);
    var s := Child(p, !dir);
    var p1 := SetChild(p, dir, Nil).(val := p.val + v.val);
    if s.Nil? then p1 else Absorb(p1, s)
  }

  /** Delete(k): only an existing full-key node without children is removed. */
  ghost function DeleteSpec(t: Tree, k: nat): Tree
    requires Wf(t)
  {
    match Find(t, k, 0)
    case None => t
    case Some(path) =>
      var v := At(t, path);
      if v.c0.Node? || v.c1.Node? then t
      else
        AtPrefix(t, path);
        ReplaceAt(t, path[..|path| - 1], Unlink(At(t, path[..|path| - 1]), path[|path| - 1]))
  }

  // ---------------------------------------------------------------------
  // Paths

  /** Following q and then r is following q + r. */
  lemma {:induction false} AtAppend(t: Tree, q: seq<bool>, r: seq<bool>)
    ensures At(t, q + r) == At(At(t, q), r)
    decreases |q|
  {
    if q == [] {
      assert q + r == r;
    } else if t.Nil? {
      if r != [] {
        AtNil(r);
      }
    } else {
      assert (q + r)[0] == q[0] && (q + r)[1..] == q[1..] + r;
      AtAppend(Child(t, q[0]), q[1..], r);
    }
  }

  /** The parent of a node is a node. */
  lemma AtPrefix(t: Tree, p: seq<bool>)
    requires At(t, p).Node? && p != []
    ensures At(t, p[..|p| - 1]).Node?
    ensures Child(At(t, p[..|p| - 1]), p[|p| - 1]) == At(t, p)
  {
    var q := p[..|p| - 1];
    var b := p[|p| - 1];
    assert p == q + [b];
    AtAppend(t, q, [b]);
    assert [b][1..] == [];
  }

  lemma LiftSnoc(p: seq<bool>, b: bool, o: Option<seq<bool>>)
    ensures Lift(p + [b], o) == Lift(p, Prepend(b, o))
  {
    if o.Some? {
      assert p + [b] + o.value == p + ([b] + o.value);
    }
  }

  /** The node at a path is well formed at the depth its ancestors reach. */
  lemma {:induction false} BelowAt(n: Tree, dn: nat, p: seq<bool>)
    requires n.Node? && Kids(n, dn) && p != [] && At(n, p).Node?
    ensures Below(At(n, p), dn + Offset(n, p), p[|p| - 1])
    decreases |p|
  {
    if |p| > 1 {
      var c := Child(n, p[0]);
      BelowAt(c, dn + c.keylen, p[1..]);
    }
  }

  /** Replacing a node by one well formed in the same place keeps the whole
      subtree well formed, and leaves the top node's own fields alone. */
  lemma {:induction false} ReplaceKids(n: Tree, dn: nat, p: seq<bool>, x: Tree)
    requires n.Node? && Kids(n, dn) && p != [] && At(n, p).Node?
    requires Below(x, dn + Offset(n, p), p[|p| - 1])
    ensures ReplaceAt(n, p, x).Node? && Kids(ReplaceAt(n, p, x), dn)
    ensures ReplaceAt(n, p, x).key == n.key && ReplaceAt(n, p, x).keylen == n.keylen
    ensures ReplaceAt(n, p, x).val == n.val
    decreases |p|
  {
    var c := Child(n, p[0]);
    if |p| > 1 {
      assert p[1..][|p| - 2] == p[|p| - 1];
      ReplaceKids(c, dn + c.keylen, p[1..], x);
      assert Below(ReplaceAt(c, p[1..], x), dn, p[0]);
    }
  }

  lemma {:induction false} BelowSegmented(n: Tree, d: nat, b: bool)
    requires Below(n, d, b)
    ensures Segmented(n)
    decreases n
  {
    if n.Node? {
      BelowSegmented(n.c0, d + n.keylen, false);
      BelowSegmented(n.c1, d + n.keylen, true);
    }
  }

  lemma WfSegmented(t: Tree)
    requires Wf(t)
    ensures Segmented(t)
  {
    BelowSegmented(t.c0, 0, false);
    BelowSegmented(t.c1, 0, true);
  }

  // ---------------------------------------------------------------------
  // Well-formedness is preserved

  /** A below-depth-d subtree is also well formed at any smaller depth. */
  lemma {:induction false} BelowShallower(n: Tree, d: nat, d': nat, b: bool)
    requires Below(n, d, b) && d' <= d
    ensures Below(n, d', b)
    decreases n
  {
    if n.Node? {
      BelowShallower(n.c0, d + n.keylen, d' + n.keylen, false);
      BelowShallower(n.c1, d + n.keylen, d' + n.keylen, true);
    }
  }

  lemma LeafWf(k: nat, d: nat)
    requires d < 32
    ensures Below(Leaf(Low(k, 32 - d), 32 - d), d, BitSet(k, 31 - d))
  {
    var n := Leaf(Low(k, 32 - d), 32 - d);
    LowBound(k, 32 - d);
    BitOfLow(k, 32 - d, 31 - d);
    assert n.keylen - 1 == 31 - d;
    assert Below(n.c0, 32, false) && Below(n.c1, 32, true);
  }

  /** The high part of a split keeps c's place. */
  lemma SplitHigh(c: Tree, d: nat, b: bool, cl: nat)
    requires c.Node? && Below(c, d, b) && 1 <= cl < c.keylen
    ensures Slot(Shr(c.key, cl), c.keylen - cl, d, b)
  {
    assert c.keylen == (c.keylen - cl) + cl;
    ShrBound(c.key, c.keylen - cl, cl);
    BitOfShr(c.key, cl, c.keylen - cl - 1);
  }

  /** The low part of a split hangs below the high part, in the slot of its
      own top bit. */
  lemma SplitLow(c: Tree, d: nat, b: bool, cl: nat)
    requires c.Node? && Below(c, d, b) && 1 <= cl < c.keylen
    ensures Below(c.(key := Low(c.key, cl), keylen := cl), d + c.keylen - cl, BitSet(c.key, cl - 1))
  {
    LowBound(c.key, cl);
    BitOfLow(c.key, cl, cl - 1);
  }

  /** A split node is well formed where the node it replaces was. */
  lemma SplitWf(c: Tree, d: nat, k: nat)
    requires c.Node? && d < 32 && Below(c, d, BitSet(k, 31 - d))
    requires Agree(c, d, k) < c.keylen
    ensures Below(Split(c, c.keylen - Agree(c, d, k), d + Agree(c, d, k), k), d, BitSet(k, 31 - d))
  {
    var j := Agree(c, d, k);
    var cl := c.keylen - j;
    SplitHigh(c, d, BitSet(k, 31 - d), cl);
    SplitLow(c, d, BitSet(k, 31 - d), cl);
    LeafWf(k, d + j);
  }

  lemma {:induction false} IncFromWf(n: Tree, d: nat, k: nat)
    requires n.Node? && d <= 32 && Kids(n, d)
    ensures IncFrom(n, d, k).Node? && Kids(IncFrom(n, d, k), d)
    ensures IncFrom(n, d, k).key == n.key && IncFrom(n, d, k).keylen == n.keylen
    decreases 32 - d, 2
  {
    if d < 32 {
      var b := BitSet(k, 31 - d);
      var c := Child(n, b);
      if c.Nil? {
        LeafWf(k, d);
      } else {
        ResumeWf(c, d, k);
      }
    }
  }

  lemma {:induction false} ResumeWf(c: Tree, d: nat, k: nat)
    requires c.Node? && d < 32 && Below(c, d, BitSet(k, 31 - d))
    ensures Resume(c, d, k).Node? && Below(Resume(c, d, k), d, BitSet(k, 31 - d))
    decreases 32 - d, 1
  {
    var j := Agree(c, d, k);
    if j == c.keylen {
      DescendWf(c, d, k);
    } else {
      SplitWf(c, d, k);
      assert Resume(c, d, k) == Split(c, c.keylen - j, d + j, k);
    }
  }

  /** k follows all of c's segment, and the increment below c keeps it in
      place. */
  lemma {:induction false} DescendWf(c: Tree, d: nat, k: nat)
    requires c.Node? && d < 32 && Below(c, d, BitSet(k, 31 - d)) && Agree(c, d, k) == c.keylen
    ensures Resume(c, d, k).Node? && Below(Resume(c, d, k), d, BitSet(k, 31 - d))
    decreases 32 - d, 0
  {
    IncFromWf(c, d + c.keylen, k);
    BelowKeep(c, IncFrom(c, d + c.keylen, k), d, BitSet(k, 31 - d));
    assert Resume(c, d, k) == IncFrom(c, d + c.keylen, k);
  }

  /** A node with c's segment and well-formed children sits wherever c does. */
  lemma BelowKeep(c: Tree, c': Tree, d: nat, b: bool)
    requires Below(c, d, b) && c.Node? && c'.Node?
    requires c'.key == c.key && c'.keylen == c.keylen && Kids(c', d + c.keylen)
    ensures Below(c', d, b)
  {
  }

  lemma IncSpecWf(t: Tree, k: nat)
    requires Wf(t)
    ensures Wf(IncSpec(t, k))
  {
    IncFromWf(t, 0, k);
  }

  // ---------------------------------------------------------------------
  // Walking down k's path one bit at a time, as Increment and getBT do

  /** The increment as the loop of Increment performs it: bt is the current
      node, complen of its segment's bits are still to compare (none when
      complen <= 0) and i is the next key bit to look at.  The result is the
      new subtree in bt's place. */
  ghost function IncAt(bt: Tree, complen: int, i: int, k: nat): Tree
    requires bt.Node? && complen <= bt.keylen && -1 <= i <= 31
    decreases i + 1, 1
  {
    if i < 0 then bt.(val := bt.val + 1)
    else if complen > 0 then IncCmp(bt, complen, i, k)
    else
      var b := BitSet(k, i);
      var c := Child(bt, b);
      if c.Nil? then SetChild(bt, b, Leaf(Low(k, i + 1), i + 1))
      else if c.keylen == 0 then bt  // an empty segment below the root: not in a well-formed trie
      else SetChild(bt, b, IncCmp(c, c.keylen, i, k))
  }

  /** One comparison of the loop: bit complen - 1 of bt's segment against key
      bit i; a disagreement splits bt. */
  ghost function IncCmp(bt: Tree, complen: int, i: int, k: nat): Tree
    requires bt.Node? && 1 <= complen <= bt.keylen && 0 <= i <= 31
    decreases i + 1, 0
  {
    if Bit(bt.key, complen - 1) != Bit(k, i) then Split(bt, complen, 31 - i, k)
    else IncAt(bt, complen - 1, i - 1, k)
  }

  /** The search as the loop of getBT performs it, down to key bit m: pre is
      the path walked so far and the result the path to the node found. */
  ghost function FindAt(bt: Tree, complen: int, i: int, k: nat, m: nat, pre: seq<bool>): Option<seq<bool>>
    requires bt.Node? && complen <= bt.keylen && -1 <= i <= 31
    decreases i + 1, 1
  {
    if i < m then (if complen == 0 then Some(pre) else None)
    else if complen > 0 then FindCmp(bt, complen, i, k, m, pre)
    else
      var b := BitSet(k, i);
      var c := Child(bt, b);
      if c.Nil? || c.keylen == 0 then None
      else FindCmp(c, c.keylen, i, k, m, pre + [b])
  }

  ghost function FindCmp(bt: Tree, complen: int, i: int, k: nat, m: nat, pre: seq<bool>): Option<seq<bool>>
    requires bt.Node? && 1 <= complen <= bt.keylen && m <= i <= 31
    decreases i + 1, 0
  {
    if Bit(bt.key, complen - 1) != Bit(k, i) then None
    else FindAt(bt, complen - 1, i - 1, k, m, pre)
  }

  /** The walk inside bt: bt hangs below depth d on k's path, complen of its
      bits are still to compare, the earlier ones all agreed with k, and i is
      the next key bit. */
  ghost predicate Walking(bt: Tree, d: nat, complen: int, i: int, k: nat)
  {
    bt.Node? && d < 32 && Below(bt, d, BitSet(k, 31 - d))
    && 0 <= complen <= bt.keylen && i + 1 == 32 - d - bt.keylen + complen
    && Shr(bt.key, complen) == Shr(Seg(k, d, bt.keylen), complen)
  }

  /** A walk starts at the top of a node hanging on k's path. */
  lemma WalkStart(c: Tree, d: nat, k: nat)
    requires c.Node? && d < 32 && Below(c, d, BitSet(k, 31 - d))
    ensures Walking(c, d, c.keylen, 31 - d, k)
  {
    SmallValue(c.key, c.keylen);
    SegBound(k, d, c.keylen);
    SmallValue(Seg(k, d, c.keylen), c.keylen);
  }

  /** One more bit of bt's segment agrees with key bit i. */
  lemma WalkOn(bt: Tree, d: nat, complen: int, i: int, k: nat)
    requires Walking(bt, d, complen, i, k) && complen >= 1
    requires Bit(bt.key, complen - 1) == Bit(k, i)
    ensures Walking(bt, d, complen - 1, i - 1, k)
  {
    SegBit(k, d, bt.keylen, complen - 1);
    ShrStep(bt.key, complen - 1);
    ShrStep(Seg(k, d, bt.keylen), complen - 1);
  }

  /** A walk that has compared all of bt's segment matched it. */
  lemma WalkDone(bt: Tree, d: nat, i: int, k: nat)
    requires Walking(bt, d, 0, i, k)
    ensures bt.key == Seg(k, d, bt.keylen) && d + bt.keylen == 31 - i
    ensures Resume(bt, d, k) == IncFrom(bt, 31 - i, k)
  {
    CommonPrefixIs(bt.key, bt.key, bt.keylen, bt.keylen);
  }

  /** A walk stopped by a disagreeing bit splits bt there. */
  lemma WalkSplits(bt: Tree, d: nat, complen: int, i: int, k: nat)
    requires Walking(bt, d, complen, i, k) && complen >= 1
    requires Bit(bt.key, complen - 1) != Bit(k, i)
    ensures bt.key != Seg(k, d, bt.keylen)
    ensures Resume(bt, d, k) == Split(bt, complen, 31 - i, k)
  {
    SegBit(k, d, bt.keylen, complen - 1);
    SegBound(k, d, bt.keylen);
    SmallValue(bt.key, bt.keylen);
    SmallValue(Seg(k, d, bt.keylen), bt.keylen);
    CommonPrefixIs(bt.key, Seg(k, d, bt.keylen), bt.keylen, bt.keylen - complen);
  }

  /** From a node boundary, the bit-by-bit increment is the node-by-node one. */
  lemma {:induction false} IncAtFrom(n: Tree, complen: int, d: nat, k: nat)
    requires n.Node? && d <= 32 && Kids(n, d) && complen <= 0
    ensures IncAt(n, complen, 31 - d, k) == IncFrom(n, d, k)
    decreases 32 - d, 1, 0
  {
    if d < 32 {
      var c := Child(n, BitSet(k, 31 - d));
      if c.Node? {
        WalkStart(c, d, k);
        IncCmpResume(c, d, c.keylen, 31 - d, k);
      }
    }
  }

  /** Inside a segment, the bit-by-bit increment is the node-by-node one. */
  lemma {:induction false} IncCmpResume(c: Tree, d: nat, complen: int, i: int, k: nat)
    requires Walking(c, d, complen, i, k) && complen >= 1
    ensures 0 <= i <= 31
    ensures IncCmp(c, complen, i, k) == Resume(c, d, k)
    decreases 32 - d, 0, complen
  {
    if Bit(c.key, complen - 1) != Bit(k, i) {
      WalkSplits(c, d, complen, i, k);
    } else {
      WalkOn(c, d, complen, i, k);
      if complen > 1 {
        IncCmpResume(c, d, complen - 1, i - 1, k);
      } else {
        WalkDone(c, d, i - 1, k);
        IncAtFrom(c, 0, d + c.keylen, k);
      }
    }
  }

  /** The loop of Increment, started at the root, computes IncSpec. */
  lemma IncAtIsSpec(t: Tree, k: nat)
    requires Wf(t)
    ensures IncAt(t, -1, 31, k) == IncSpec(t, k)
  {
    IncAtFrom(t, -1, 0, k);
  }

  /** From a node boundary, the bit-by-bit search is the node-by-node one. */
  lemma {:induction false} FindAtFrom(n: Tree, complen: int, d: nat, k: nat, m: nat, pre: seq<bool>)
    requires n.Node? && d <= 32 - m && Kids(n, d) && complen <= 0
    requires d == 32 - m ==> complen == 0
    ensures FindAt(n, complen, 31 - d, k, m, pre) == Lift(pre, FindFrom(n, d, k, 32 - m))
    decreases 32 - d, 1, 0
  {
    if d < 32 - m {
      var b := BitSet(k, 31 - d);
      var c := Child(n, b);
      if c.Node? {
        WalkStart(c, d, k);
        FindCmpContinue(c, d, c.keylen, 31 - d, k, m, pre + [b]);
        LiftSnoc(pre, b, Continue(c, d, k, 32 - m));
      }
    } else {
      assert pre + [] == pre;
    }
  }

  /** Inside a segment, the bit-by-bit search is the node-by-node one. */
  lemma {:induction false} FindCmpContinue(c: Tree, d: nat, complen: int, i: int, k: nat, m: nat, pre: seq<bool>)
    requires Walking(c, d, complen, i, k) && complen >= 1 && m <= i
    ensures d < 32 - m
    ensures FindCmp(c, complen, i, k, m, pre) == Lift(pre, Continue(c, d, k, 32 - m))
    decreases 32 - d, 0, complen
  {
    if Bit(c.key, complen - 1) != Bit(k, i) {
      WalkSplits(c, d, complen, i, k);
    } else {
      WalkOn(c, d, complen, i, k);
      if complen > 1 && i - 1 >= m {
        FindCmpContinue(c, d, complen - 1, i - 1, k, m, pre);
      } else if complen == 1 {
        WalkDone(c, d, i - 1, k);
        FindAtFrom(c, 0, d + c.keylen, k, m, pre);
      }
    }
  }

  /** The loop of getBT, started at the root, computes Find. */
  lemma FindAtIsSpec(t: Tree, k: nat, m: nat)
    requires Wf(t)
    ensures FindAt(t, -1, 31, k, m, []) == Find(t, k, m)
  {
    if m < 32 {
      FindAtFrom(t, -1, 0, k, m, []);
      var o := FindFrom(t, 0, k, 32 - m);
      if o.Some? {
        assert [] + o.value == o.value;
      }
    }
  }

  // ---------------------------------------------------------------------
  // The Go object

  class BinTrie {
    var root: Tree

    ghost predicate Valid()
      reads this
    {
      Wf(root)
    }

    /** new(BinTrie): a zeroed root. */
    constructor ()
      ensures Valid() && root == Empty
    {
      root := Empty;
      new;
      Pow2Is32();
    }

    method Increment(k: uint32)
      requires Valid()
      modifies this
      ensures Valid()
      ensures root == IncSpec(old(root), k)
    {
      ghost var t := root;
      ghost var goal := IncAt(t, -1, 31, k);
      IncAtIsSpec(t, k);
      IncSpecWf(t, k);
      WfSegmented(t);
      var bt := root;
      var up := Top;
      var complen: int := -1;
      var i := 31;
      while i >= 0
        invariant -1 <= i <= 31 && root == t
        invariant bt.Node? && -1 <= complen <= bt.keylen && Segmented(bt)
        invariant goal == Plug(up, IncAt(bt, complen, i, k))
      {
        if complen <= 0 {
          // bt is fully matched: the walk goes on into the child for bit i
          var b := BitSet(k, i);
          var c := Child(bt, b);
          if c.Nil? {
            assert IncAt(bt, complen, i, k) == SetChild(bt, b, Leaf(Low(k, i + 1), i + 1));
            root := Plug(up, SetChild(bt, b, Leaf(Low(k, i + 1), i + 1)));
            assert root == goal;
            return;
          }
          assert IncAt(bt, complen, i, k) == SetChild(bt, b, IncCmp(c, c.keylen, i, k));
          up, bt, complen := Enter(up, bt, b), c, c.keylen;
        } else {
          assert IncAt(bt, complen, i, k) == IncCmp(bt, complen, i, k);
        }
        if Bit(bt.key, complen - 1) != Bit(k, i) {
          assert IncCmp(bt, complen, i, k) == Split(bt, complen, 31 - i, k);
          root := Plug(up, Split(bt, complen, 31 - i, k));
          assert root == goal;
          return;
        }
        assert IncCmp(bt, complen, i, k) == IncAt(bt, complen - 1, i - 1, k);
        complen := complen - 1;
        i := i - 1;
      }
      // all 32 bits are consumed: bt is the node of k
      assert IncAt(bt, complen, i, k) == bt.(val := bt.val + 1);
      root := Plug(up, bt.(val := bt.val + 1));
      assert root == goal;
    }

    /** getBT: whether bits 31..m of k lead exactly to a node boundary, and
        the path to that node. */
    method GetBT(k: uint32, m: uint8) returns (found: bool, path: seq<bool>)
      requires Valid()
      ensures found == Find(root, k, m).Some?
      ensures found ==> Find(root, k, m) == Some(path)
    {
      ghost var goal := FindAt(root, -1, 31, k, m, []);
      FindAtIsSpec(root, k, m);
      WfSegmented(root);
      var bt := root;
      path := [];
      var complen: int := -1;
      var i := 31;
      while i >= m
        invariant -1 <= i <= 31 && (m <= 31 ==> m - 1 <= i)
        invariant bt.Node? && -1 <= complen <= bt.keylen && Segmented(bt)
        invariant goal == FindAt(bt, complen, i, k, m, path)
      {
        if complen <= 0 {
          var b := BitSet(k, i);
          var c := Child(bt, b);
          if c.Nil? {
            found := false;
            return;
          }
          bt, path, complen := c, path + [b], c.keylen;
        }
        if Bit(bt.key, complen - 1) != Bit(k, i) {
          found := false;
          return;
        }
        complen := complen - 1;
        i := i - 1;
      }
      // the walk reached bit m; it found a node only on a node boundary
      found := complen == 0;
    }

    /** Get(k, m): present with the node's count, or (false, 0). */
    method Get(k: uint32, m: uint8) returns (present: bool, v: nat)
      requires Valid()
      ensures (present, v) == GetSpec(root, k, m)
    {
      var b, path := GetBT(k, m);
      if b {
        return true, At(root, path).val;
      }
      return false, 0;
    }

    /** sumParent(k, m): present with the node's count plus its parent's. */
    method SumParent(k: uint32, m: uint8) returns (present: bool, v: nat)
      requires Valid()
      ensures (present, v) == SumParentSpec(root, k, m)
    {
      var b, path := GetBT(k, m);
      if b {
        AtPrefix(root, path);
        return true, At(root, path).val + At(root, path[..|path| - 1]).val;
      }
      return false, 0;
    }

    /** Delete(k): remove the full-key node of k if it is a leaf; its parent
        keeps the leaf's count and absorbs the remaining sibling. */
    method Delete(k: uint32)
      requires Valid()
      modifies this
      ensures Valid()
      ensures root == DeleteSpec(old(root), k)
    {
      DeleteSpecWf(root, k);
      var b, path := GetBT(k, 0);
      if !b {
        return;
      }
      var v := At(root, path);
      if v.c0.Node? || v.c1.Node? {
        return;
      }
      AtPrefix(root, path);
      var p := At(root, path[..|path| - 1]);
      root := ReplaceAt(root, path[..|path| - 1], Unlink(p, path[|path| - 1]));
    }
  }

  /** Absorbing the only child s into p keeps p's place: the joined segment
      still fits in 32 bits, so neither the uint32 key nor the uint8 keylen
      wraps, and its top bit is p's. */
  lemma AbsorbWf(p: Tree, d: nat, b: bool, s: Tree, sb: bool)
    requires p.Node? && Below(p, d, b) && s.Node? && Below(s, d + p.keylen, sb)
    ensures Below(Absorb(p, s), d, b)
  {
    var x := Shl(p.key, s.keylen) + s.key;
    ConcatBound(p.key, s.key, p.keylen, s.keylen);
    Pow2Le(p.keylen + s.keylen, 32);
    Pow2Is32();
    SmallValue(x, 32);
    BitOfConcat(p.key, s.key, s.keylen, p.keylen - 1);
    var len: nat := p.keylen + s.keylen;
    assert s.keylen + (p.keylen - 1) == len - 1;
    assert len % 0x100 == len;
  }

  /** Removing a child keeps the parent's place. */
  lemma UnlinkWf(p: Tree, d: nat, b: bool, dir: bool)
    requires p.Node? && Below(p, d, b) && Child(p, dir).Node?
    ensures Below(Unlink(p, dir), d, b)
  {
    var s := Child(p, !dir);
    var p0 := SetChild(p, dir, Nil);
    var p1 := p0.(val := p.val + Child(p, dir).val);
    assert Below(p1, d, b);
    if s.Node? {
      AbsorbWf(p1, d, b, s, !dir);
    }
  }

  /** Removing a child of the root keeps the trie well formed; the root's
      uint32 key and uint8 keylen wrap. */
  lemma RootUnlinkWf(t: Tree, dir: bool)
    requires Wf(t) && Child(t, dir).Node?
    ensures Wf(Unlink(t, dir))
  {
    var s := Child(t, !dir);
    if s.Node? {
      var p0 := SetChild(t, dir, Nil);
      var p1 := p0.(val := t.val + Child(t, dir).val);
      LowBound(Shl(p1.key, s.keylen) + s.key, 32);
      Pow2Is32();
      BelowShallower(s.c0, s.keylen, 0, false);
      BelowShallower(s.c1, s.keylen, 0, true);
    }
  }

  lemma DeleteSpecWf(t: Tree, k: nat)
    requires Wf(t)
    ensures Wf(DeleteSpec(t, k))
  {
    var o := Find(t, k, 0);
    if o.Some? {
      var path := o.value;
      var v := At(t, path);
      if !(v.c0.Node? || v.c1.Node?) {
        AtPrefix(t, path);
        var q := path[..|path| - 1];
        var dir := path[|path| - 1];
        var u := Unlink(At(t, q), dir);
        assert DeleteSpec(t, k) == ReplaceAt(t, q, u);
        if q == [] {
          RootUnlinkWf(t, dir);
        } else {
          BelowAt(t, 0, q);
          UnlinkWf(At(t, q), Offset(t, q), q[|q| - 1], dir);
          ReplaceKids(t, 0, q, u);
        }
      }
    }
  }
}
