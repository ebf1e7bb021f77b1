/** The coordinator of agori.go (type Agori): every key inserted is counted in
    the trie, and the recency list bounds how many keys the trie keeps.  When
    the list is full, the least recently used key whose importance (its
    count plus its parent's, sumParent) does not exceed the reclaim threshold
    is evicted from both before the new key is admitted.

    The float32 reclaimExemptionThreshold is the fraction thrNum / thrDen;
    the threshold for numAdded inserts is floor(thrNum * numAdded / thrDen),
    as Go's uint conversion of the non-negative product truncates. */
module Agori {
  import opened Bits
  import opened Trie
  import opened TrieProps
  import opened Lru

  /** The observable state: the trie, the recency list and numAdded. */
  datatype State = State(root: Tree, l: seq<uint32>, added: nat)

  /** The number of keys a list of capacity s can hold. */
  function Cap(s: int): nat {
    if s < 0 then 0 else s
  }

  /** uint(reclaimExemptionThreshold * float32(numAdded)). */
  function Threshold(thrNum: nat, thrDen: nat, added: nat): (r: nat)
    requires thrDen > 0
    ensures r * thrDen <= thrNum * added < (r + 1) * thrDen
  {
    thrNum * added / thrDen
  }

  /** A key the eviction scan skips: sumParent finds it and its importance
      is above the threshold. */
  ghost predicate Exempt(t: Tree, x: uint32, thr: nat)
    requires Wf(t)
  {
    SumParentSpec(t, x, 0).0 && SumParentSpec(t, x, 0).1 > thr
  }

  /** The outcome of the eviction scan: the victim and the offset from the
      back it was found at, or a scan that never ends. */
  datatype Scan = Victim(key: uint32, offset: nat) | Diverges

  /** The scan of Insert from offset off on: the first key from the back
      that is not exempt.  Past the front GetEnd reports 0 at every offset,
      so an exempt 0 there keeps the Go loop going for ever. */
  ghost function ScanFrom(t: Tree, l: seq<uint32>, thr: nat, off: nat): Scan
    requires Wf(t)
    decreases |l| - off
  {
    var x := EndAt(l, off);
    if !Exempt(t, x, thr) then Victim(x, off)
    else if off >= |l| then Diverges
    else ScanFrom(t, l, thr, off + 1)
  }

  /** Admitting k to the list of capacity s, and deleting from the trie t
      the key the list evicts, if any. */
  ghost function Admit(t: Tree, l: seq<uint32>, s: int, k: uint32): (r: (Tree, seq<uint32>))
    requires Wf(t)
    ensures Wf(r.0)
  {
    var a := AddSpec(l, s, k);
    DeleteSpecWf(t, a.victim);
    (if a.evicted then DeleteSpec(t, a.victim) else t, a.l)
  }

  /** Insert(k) on the state st, for a list of capacity s; None when Go's
      scan does not terminate. */
  ghost function InsertSpec(st: State, k: uint32, s: int, thrNum: nat, thrDen: nat): (r: Option<State>)
    requires Wf(st.root) && thrDen > 0
    ensures r.Some? ==> Wf(r.value.root) && r.value.added == st.added + 1
  {
    var n := st.added + 1;
    IncSpecWf(st.root, k);
    var t1 := IncSpec(st.root, k);
    if |st.l| < s then
      var (t', l') := Admit(t1, st.l, s, k);
      Some(State(t', l', n))
    else
      match ScanFrom(t1, st.l, Threshold(thrNum, thrDen, n), 0)
      case Diverges => None
      case Victim(x, _) =>
        DeleteSpecWf(t1, x);
        var (t', l') := Admit(DeleteSpec(t1, x), Without(st.l, x), s, k);
        Some(State(t', l', n))
  }

  // ---------------------------------------------------------------------
  // The eviction scan

  /** The victim is the key at its offset and is not exempt, and every key
      the scan skipped before it is exempt; a victim found past the front is
      the sentinel 0. */
  lemma {:induction false} ScanVictim(t: Tree, l: seq<uint32>, thr: nat, off: nat, x: uint32, o: nat)
    requires Wf(t) && off <= |l| && ScanFrom(t, l, thr, off) == Victim(x, o)
    ensures off <= o <= |l| && x == EndAt(l, o) && !Exempt(t, x, thr)
    ensures o == |l| ==> x == 0
    ensures forall j :: off <= j < o ==> Exempt(t, EndAt(l, j), thr)
    decreases |l| - off
  {
    if Exempt(t, EndAt(l, off), thr) {
      ScanVictim(t, l, thr, off + 1, x, o);
    }
  }

  /** When the scan diverges, the key at every offset from off on is exempt:
      Go's loop never exits, and key 0 is in the trie. */
  lemma {:induction false} ScanDiverges(t: Tree, l: seq<uint32>, thr: nat, off: nat)
    requires Wf(t) && off <= |l| && ScanFrom(t, l, thr, off) == Diverges
    ensures forall j :: off <= j ==> Exempt(t, EndAt(l, j), thr)
    ensures GetSpec(t, 0, 0).0
    decreases |l| - off
  {
    if off < |l| {
      ScanDiverges(t, l, thr, off + 1);
    }
    assert EndAt(l, |l|) == 0;
    forall j | |l| <= j
      ensures EndAt(l, j) == EndAt(l, |l|)
    {
    }
  }

  // ---------------------------------------------------------------------
  // Insert

  /** While the list is not full Add never evicts, so the trie is only
      incremented: the "Incorrectly deleting" branch is unreachable. */
  lemma InsertNotFull(st: State, k: uint32, s: int, thrNum: nat, thrDen: nat)
    requires Wf(st.root) && thrDen > 0 && |st.l| < s
    ensures InsertSpec(st, k, s, thrNum, thrDen)
            == Some(State(IncSpec(st.root, k), AddSpec(st.l, s, k).l, st.added + 1))
  {
    FullEvicts(st.l, s, k);
  }

  /** Below capacity, an insert counts k once more, or once if it was
      absent. */
  lemma InsertNotFullCounts(st: State, k: uint32, s: int, thrNum: nat, thrDen: nat)
    requires Wf(st.root) && thrDen > 0 && |st.l| < s
    ensures InsertSpec(st, k, s, thrNum, thrDen).Some?
    ensures GetSpec(InsertSpec(st, k, s, thrNum, thrDen).value.root, k, 0)
            == (true, GetSpec(st.root, k, 0).1 + 1)
  {
    InsertNotFull(st, k, s, thrNum, thrDen);
    IncGetSelf(st.root, k);
  }

  /** The list stays duplicate free and within capacity across inserts. */
  lemma InsertKeepsList(st: State, k: uint32, s: int, thrNum: nat, thrDen: nat)
    requires Wf(st.root) && thrDen > 0 && NoDup(st.l) && |st.l| <= Cap(s)
    ensures var r := InsertSpec(st, k, s, thrNum, thrDen);
      r.Some? ==> NoDup(r.value.l) && |r.value.l| <= Cap(s)
  {
    var r := InsertSpec(st, k, s, thrNum, thrDen);
    if r.Some? {
      if |st.l| < s {
        AddBound(st.l, s, k);
        AddKeys(st.l, s, k);
      } else {
        var t1 := IncSpec(st.root, k);
        IncSpecWf(st.root, k);
        var x := ScanFrom(t1, st.l, Threshold(thrNum, thrDen, st.added + 1), 0).key;
        var l1 := Without(st.l, x);
        WithoutKeys(st.l, x);
        AddKeys(l1, s, k);
        if k in l1 {
          AddTouch(l1, s, k);
        } else {
          AddNew(l1, s, k);
        }
      }
    }
  }

  /** At capacity, the victim the scan picks is untracked and removed from
      the trie before k is admitted. */
  lemma InsertFull(st: State, k: uint32, s: int, thrNum: nat, thrDen: nat, x: uint32, o: nat)
    requires Wf(st.root) && thrDen > 0 && |st.l| >= s && Wf(IncSpec(st.root, k))
    requires ScanFrom(IncSpec(st.root, k), st.l, Threshold(thrNum, thrDen, st.added + 1), 0) == Victim(x, o)
    ensures Wf(DeleteSpec(IncSpec(st.root, k), x))
    ensures var a := Admit(DeleteSpec(IncSpec(st.root, k), x), Without(st.l, x), s, k);
      InsertSpec(st, k, s, thrNum, thrDen) == Some(State(a.0, a.1, st.added + 1))
  {
    DeleteSpecWf(IncSpec(st.root, k), x);
  }

  /** At capacity, the insert of a tracked key whose scan picks another
      tracked key as victim shrinks the list by one. */
  lemma InsertTrackedShrinks(st: State, k: uint32, s: int, thrNum: nat, thrDen: nat, x: uint32, o: nat)
    requires Wf(st.root) && thrDen > 0 && NoDup(st.l) && |st.l| >= s && k in st.l
    requires Wf(IncSpec(st.root, k))
    requires ScanFrom(IncSpec(st.root, k), st.l, Threshold(thrNum, thrDen, st.added + 1), 0) == Victim(x, o)
    requires x in st.l && x != k
    ensures InsertSpec(st, k, s, thrNum, thrDen).Some?
    ensures |InsertSpec(st, k, s, thrNum, thrDen).value.l| == |st.l| - 1
  {
    InsertFull(st, k, s, thrNum, thrDen, x, o);
    assert InsertSpec(st, k, s, thrNum, thrDen).value.l == AddSpec(Without(st.l, x), s, k).l;
    WithoutKeys(st.l, x);
    assert k in Elems(st.l);
    assert k in Elems(Without(st.l, x));
    AddTouch(Without(st.l, x), s, k);
  }

  // ---------------------------------------------------------------------
  // The test's repeated insert

  /** n inserts of k in a row. */
  ghost function InsertMany(st: State, k: uint32, n: nat, s: int, thrNum: nat, thrDen: nat): (r: Option<State>)
    requires Wf(st.root) && thrDen > 0
    ensures r.Some? ==> Wf(r.value.root)
  {
    if n == 0 then Some(st)
    else
      match InsertMany(st, k, n - 1, s, thrNum, thrDen)
      case None => None
      case Some(st') => InsertSpec(st', k, s, thrNum, thrDen)
  }

  /** The empty trie finds nothing. */
  lemma EmptyAbsent(k: nat)
    ensures Wf(Empty) && GetSpec(Empty, k, 0) == (false, 0)
  {
    assert Child(Empty, BitSet(k, 31)).Nil?;
  }

  /** On a fresh Agori whose list holds two keys or more, inserting the same
      key n times counts it n times and keeps only it in the list. */
  lemma {:induction false} RepeatedInsert(k: uint32, n: nat, s: int, thrNum: nat, thrDen: nat)
    requires s >= 2 && thrDen > 0 && n >= 1
    ensures var r := InsertMany(State(Empty, [], 0), k, n, s, thrNum, thrDen);
      r.Some? && r.value.l == [k] && r.value.added == n && GetSpec(r.value.root, k, 0) == (true, n)
  {
    var st0 := State(Empty, [], 0);
    EmptyAbsent(k);
    var prev := InsertMany(st0, k, n - 1, s, thrNum, thrDen);
    if n > 1 {
      RepeatedInsert(k, n - 1, s, thrNum, thrDen);
    }
    assert prev.Some? && (prev.value.l == [k] || prev.value.l == []);
    assert prev.value.added == n - 1 && GetSpec(prev.value.root, k, 0).1 == n - 1;
    var r := InsertSpec(prev.value, k, s, thrNum, thrDen);
    assert InsertMany(st0, k, n, s, thrNum, thrDen) == r;
    InsertAgain(prev.value, k, s, thrNum, thrDen);
    assert GetSpec(r.value.root, k, 0) == (true, n);
  }

  /** One more insert of k, when k is all the list holds or the list is
      empty. */
  lemma InsertAgain(st: State, k: uint32, s: int, thrNum: nat, thrDen: nat)
    requires Wf(st.root) && thrDen > 0 && s >= 2 && (st.l == [k] || st.l == [])
    ensures var r := InsertSpec(st, k, s, thrNum, thrDen);
      r.Some? && r.value.l == [k] && r.value.added == st.added + 1
      && GetSpec(r.value.root, k, 0) == (true, GetSpec(st.root, k, 0).1 + 1)
  {
    InsertNotFullCounts(st, k, s, thrNum, thrDen);
    InsertNotFull(st, k, s, thrNum, thrDen);
    assert Without([k], k) == [];
  }

  // ---------------------------------------------------------------------
  // Dotted-quad keys

  /** uint32(d1)<<24 + uint32(d2)<<16 + uint32(d3)<<8 + uint32(d4), in uint32
      arithmetic. */
  function Pack(d1: uint8, d2: uint8, d3: uint8, d4: uint8): (r: uint32)
    ensures r == d1 * 0x100_0000 + d2 * 0x1_0000 + d3 * 0x100 + d4
  {
    (d1 * 0x100_0000 + d2 * 0x1_0000 + d3 * 0x100 + d4) % 0x1_0000_0000
  }

  /** The four bytes of a key, most significant first. */
  function Octets(k: uint32): (uint8, uint8, uint8, uint8) {
    (k / 0x100_0000, k / 0x1_0000 % 0x100, k / 0x100 % 0x100, k % 0x100)
  }

  /** Unpacking a packed key gives the bytes back. */
  lemma PackOctets(d1: uint8, d2: uint8, d3: uint8, d4: uint8)
    ensures Octets(Pack(d1, d2, d3, d4)) == (d1, d2, d3, d4)
  {
    var x := Pack(d1, d2, d3, d4);
    var hi3 := d1 * 0x1_0000 + d2 * 0x100 + d3;
    var hi2 := d1 * 0x100 + d2;
    assert x == hi3 * 0x100 + d4;
    assert x / 0x100 == hi3;
    assert x == hi2 * 0x1_0000 + (d3 * 0x100 + d4);
    assert x / 0x1_0000 == hi2;
    assert x == d1 * 0x100_0000 + (d2 * 0x1_0000 + d3 * 0x100 + d4);
    assert x / 0x100_0000 == d1;
  }

  /** Every key is the packing of its bytes, so packing is a bijection. */
  lemma OctetsPack(k: uint32)
    ensures var (d1, d2, d3, d4) := Octets(k); Pack(d1, d2, d3, d4) == k
  {
    var (d1, d2, d3, d4) := Octets(k);
    PackOctets(d1, d2, d3, d4);
    assert k == (k / 0x100) * 0x100 + d4;
    assert k / 0x100 == (k / 0x1_0000) * 0x100 + d3;
    assert k / 0x1_0000 == d1 * 0x100 + d2;
  }

  /** 127.0.0.1 is the key 2130706433. */
  lemma Localhost()
    ensures Pack(127, 0, 0, 1) == 2130706433
  {
  }

  // ---------------------------------------------------------------------
  // The Go object

  class Agori {
    var bt: BinTrie
    var lru: LRU
    var thrNum: nat
    var thrDen: nat
    var numNodes: int
    var numAdded: nat

    ghost predicate Valid()
      reads this, bt, lru
    {
      bt.Valid() && lru.Valid() && lru.s == numNodes && thrDen > 0 && |lru.l| <= Cap(numNodes)
    }

    ghost function Snapshot(): State
      reads this, bt, lru
    {
      State(bt.root, lru.l, numAdded)
    }

    /** NewAgori(numNodes, thrNum / thrDen). */
    constructor (numNodes: int, thrNum: nat, thrDen: nat)
      requires thrDen > 0
      ensures Valid() && fresh(bt) && fresh(lru) && Snapshot() == State(Empty, [], 0)
      ensures this.numNodes == numNodes && this.thrNum == thrNum && this.thrDen == thrDen
    {
      bt := new BinTrie();
      this.numNodes := numNodes;
      lru := new LRU(numNodes);
      this.thrNum := thrNum;
      this.thrDen := thrDen;
      numAdded := 0;
    }

    /** NewAgoriD(): 256 keys and a threshold of 1/32. */
    constructor Default()
      ensures Valid() && fresh(bt) && fresh(lru) && Snapshot() == State(Empty, [], 0)
      ensures numNodes == 256 && thrNum == 1 && thrDen == 32
    {
      bt := new BinTrie();
      numNodes := 256;
      lru := new LRU(256);
      thrNum := 1;
      thrDen := 32;
      numAdded := 0;
    }

    /** Insert(k); terminates is false where Go's eviction scan would run
        for ever, and the model stops there. */
    method Insert(k: uint32) returns (terminates: bool)
      requires Valid()
      modifies this, bt, lru
      ensures Valid() && bt == old(bt) && lru == old(lru)
      ensures numNodes == old(numNodes) && thrNum == old(thrNum) && thrDen == old(thrDen)
      ensures InsertSpec(old(Snapshot()), k, numNodes, thrNum, thrDen)
              == if terminates then Some(Snapshot()) else None
    {
      ghost var st := Snapshot();
      ghost var r := InsertSpec(st, k, numNodes, thrNum, thrDen);
      InsertKeepsList(st, k, numNodes, thrNum, thrDen);
      numAdded := numAdded + 1;
      bt.Increment(k);
      if !lru.IsFull() {
        AdmitKey(k);
        assert r == Some(Snapshot());
        return true;
      }
      var found, mip := FindVictim();
      if !found {
        assert r.None?;
        return false;
      }
      InsertFull(st, k, numNodes, thrNum, thrDen, mip, ScanFrom(bt.root, lru.l, Threshold(thrNum, thrDen, numAdded), 0).offset);
      var _ := lru.Delete(mip);
      bt.Delete(mip);
      AdmitKey(k);
      assert r == Some(Snapshot());
      return true;
    }

    /** The admission both branches of Insert end with: Add(k) to the list,
        and delete from the trie the key it evicts (Go reports "Incorrectly
        deleting" there, as the design expects no eviction). */
    method AdmitKey(k: uint32)
      requires bt.Valid() && lru.Valid()
      modifies bt, lru
      ensures bt.Valid() && lru.Valid() && lru.s == old(lru.s)
      ensures (bt.root, lru.l) == Admit(old(bt.root), old(lru.l), lru.s, k)
    {
      var d, mip := lru.Add(k);
      if d {
        bt.Delete(mip);
      }
    }

    /** The eviction scan of Insert: from the back of the list, skip the
        keys whose sumParent is above the threshold.  found is false where
        Go's scan never ends. */
    method FindVictim() returns (found: bool, mip: uint32)
      requires Valid()
      ensures var sc := ScanFrom(bt.root, lru.l, Threshold(thrNum, thrDen, numAdded), 0);
        found == sc.Victim? && (found ==> mip == sc.key)
    {
      var thr := Threshold(thrNum, thrDen, numAdded);
      var endOffset := 0;
      var underThreshold := false;
      mip := 0;
      while !underThreshold
        invariant 0 <= endOffset <= |lru.l|
        invariant !underThreshold ==> ScanFrom(bt.root, lru.l, thr, 0) == ScanFrom(bt.root, lru.l, thr, endOffset)
        invariant underThreshold ==> ScanFrom(bt.root, lru.l, thr, 0) == Victim(mip, endOffset)
        decreases if underThreshold then 0 else 1, |lru.l| - endOffset
      {
        mip := lru.GetEnd(endOffset);
        var b, v := bt.SumParent(mip, 0);
        if b && v > thr {
          if endOffset >= |lru.l| {
            // Go goes on scanning, and GetEnd reports this same 0 at every later offset
            return false, mip;
          }
          endOffset := endOffset + 1;
        } else {
          underThreshold := true;
        }
      }
      return true, mip;
    }

    /** Get(k): the trie's exact lookup. */
    method Get(k: uint32) returns (present: bool, v: nat)
      requires Valid()
      ensures (present, v) == GetSpec(bt.root, k, 0)
    {
      present, v := bt.Get(k, 0);
    }

    /** InsertD(d1, d2, d3, d4). */
    method InsertD(d1: uint8, d2: uint8, d3: uint8, d4: uint8) returns (terminates: bool)
      requires Valid()
      modifies this, bt, lru
      ensures Valid() && bt == old(bt) && lru == old(lru)
      ensures numNodes == old(numNodes) && thrNum == old(thrNum) && thrDen == old(thrDen)
      ensures InsertSpec(old(Snapshot()), Pack(d1, d2, d3, d4), numNodes, thrNum, thrDen)
              == if terminates then Some(Snapshot()) else None
    {
      terminates := Insert(Pack(d1, d2, d3, d4));
    }

    /** GetD(d1, d2, d3, d4). */
    method GetD(d1: uint8, d2: uint8, d3: uint8, d4: uint8) returns (present: bool, v: nat)
      requires Valid()
      ensures (present, v) == GetSpec(bt.root, Pack(d1, d2, d3, d4), 0)
    {
      present, v := Get(Pack(d1, d2, d3, d4));
    }
  }
}
