/** Whole runs of a btrie: any sequence of inserts and deletes acts on the abstract map of
    prefixes, and every lookup answers with the longest match. A tree serves one address
    family: 32-bit keys as words, or 128-bit keys as 16 bytes. */
module BtrieHistory {
  import opened Btrie

  datatype Op =
    | Insert4(key: nat, mask: nat, value: nat)
    | Delete4(key: nat, mask: nat)
    | Insert6(bytes: seq<nat>, maskBytes: seq<nat>, value: nat)
    | Delete6(bytes: seq<nat>, maskBytes: seq<nat>)

  predicate IsInsert(op: Op) {
    op.Insert4? || op.Insert6?
  }

  /** What the callers promise about an operation on a tree of that depth. */
  predicate Fits(op: Op, depth: nat) {
    && (if op.Insert4? || op.Delete4? then depth == 32
        else depth == 128 && |op.bytes| == 16 && |op.maskBytes| == 16)
    && (IsInsert(op) ==> op.value != BTRIE_NULL)
  }

  function Target(op: Op): (p: Path)
    requires Fits(op, 32) || Fits(op, 128)
  {
    if op.Insert4? || op.Delete4? then Prefix(WordBits(32, op.key), WordBits(32, op.mask))
    else Prefix(ByteBits(op.bytes), ByteBits(op.maskBytes))
  }

  /** An existing prefix is not overwritten. */
  ghost function Apply(m: map<Path, nat>, op: Op): (r: map<Path, nat>)
    requires Fits(op, 32) || Fits(op, 128)
  {
    if !IsInsert(op) then m - {Target(op)}
    else if Target(op) in m then m
    else m[Target(op) := op.value]
  }

  ghost function Reply(m: map<Path, nat>, op: Op): (r: int)
    requires Fits(op, 32) || Fits(op, 128)
  {
    if IsInsert(op) == (Target(op) in m) then -1 else 0
  }

  /** The operation follows the null parent of the root. */
  ghost predicate Faults(m: map<Path, nat>, op: Op)
    requires Fits(op, 32) || Fits(op, 128)
  {
    !IsInsert(op) && !DeleteIsSafe(m, Target(op))
  }

  ghost predicate AllFit(ops: seq<Op>, depth: nat) {
    forall i :: 0 <= i < |ops| ==> Fits(ops[i], depth)
  }

  /** The map after the first n operations. */
  ghost function After(m: map<Path, nat>, ops: seq<Op>, n: nat): (r: map<Path, nat>)
    requires n <= |ops| && (AllFit(ops, 32) || AllFit(ops, 128))
  {
    if n == 0 then m else Apply(After(m, ops, n - 1), ops[n - 1])
  }

  /** One operation on the tree is one step of the abstract map, or a fault that leaves it as it was. */
  method Perform(t: Trie, op: Op) returns (r: int, fault: bool)
    requires t.Valid() && (t.depth == 32 || t.depth == 128) && Fits(op, t.depth)
    modifies t, t.pool
    ensures t.Valid()
    ensures fault <==> Faults(old(t.Contents()), op)
    ensures fault ==> t.Contents() == old(t.Contents())
    ensures !fault ==> t.Contents() == Apply(old(t.Contents()), op) && r == Reply(old(t.Contents()), op)
    ensures t.start == Max(old(t.start), |PrefixClosure(t.Contents())|)
    ensures forall k :: 0 <= k < |t.pool| ==> t.pool[k] in old(t.pool) || fresh(t.pool[k])
  {
    hide Btrie.Trie.Valid, Btrie.Trie.Contents, WordBits, ByteBits, Prefix, DeleteIsSafe;
    fault := false;
    hide PrefixClosure;
    match op {
      case Insert4(key, mask, value) => r := t.Insert4(key, mask, value);
      case Delete4(key, mask) => r, fault := t.Delete4(key, mask);
      case Insert6(key, mask, value) => r := t.Insert6(key, mask, value);
      case Delete6(key, mask) => r, fault := t.Delete6(key, mask);
    }
    ClosureFits(t);
  }

  /** The tree has one node per prefix of a stored prefix, all in used slots. */
  lemma ClosureFits(t: Trie)
    requires t.Valid()
    ensures |PrefixClosure(t.Contents())| == |t.nodes| <= t.start
  {
    hide Btrie.Trie.NodeOk, Btrie.Trie.FreedOk, Btrie.Trie.SlotOk, Btrie.Trie.LeafOk, PrefixClosure;
    t.NodesArePrefixClosure();
    t.NodesFit();
    assert |t.nodes| == |t.nodes.Keys|;
  }

  lemma AfterNone(m: map<Path, nat>, ops: seq<Op>)
    requires AllFit(ops, 32) || AllFit(ops, 128)
    ensures After(m, ops, 0) == m
  {
  }

  lemma AfterNext(m: map<Path, nat>, ops: seq<Op>, n: nat)
    requires (AllFit(ops, 32) || AllFit(ops, 128)) && n < |ops|
    ensures Fits(ops[n], 32) || Fits(ops[n], 128)
    ensures After(m, ops, n + 1) == Apply(After(m, ops, n), ops[n])
  {
    hide Apply, Fits;
  }

  /** The largest number of nodes a tree of these contents has needed after 0 to n operations. */
  ghost function Peak(m: map<Path, nat>, ops: seq<Op>, n: nat): (r: nat)
    requires n <= |ops| && (AllFit(ops, 32) || AllFit(ops, 128))
  {
    var now := |PrefixClosure(After(m, ops, n))|;
    if n == 0 then now else Max(Peak(m, ops, n - 1), now)
  }

  /** The first n operations go through with these replies, and only a fault stops before the end. */
  ghost predicate RanTo(m: map<Path, nat>, ops: seq<Op>, n: nat)
    requires AllFit(ops, 32) || AllFit(ops, 128)
  {
    && n <= |ops|
    && (forall i :: 0 <= i < n ==> !Faults(After(m, ops, i), ops[i]))
    && (n < |ops| ==> Faults(After(m, ops, n), ops[n]))
  }

  /** Executes a history up to its first fault; the tree always represents the abstract map reached. */
  method Replay(t: Trie, ops: seq<Op>) returns (replies: seq<int>)
    requires t.Valid() && (t.depth == 32 || t.depth == 128) && AllFit(ops, t.depth)
    modifies t, t.pool
    ensures t.Valid() && RanTo(old(t.Contents()), ops, |replies|)
    ensures t.Contents() == After(old(t.Contents()), ops, |replies|)
    ensures t.start == Max(old(t.start), Peak(old(t.Contents()), ops, |replies|))
    ensures forall i :: 0 <= i < |replies| ==> replies[i] == Reply(After(old(t.Contents()), ops, i), ops[i])
  {
    hide Btrie.Trie.Valid, Btrie.Trie.Contents, Apply, Reply, Fits, Faults, After, PrefixClosure;
    ghost var m := t.Contents();
    replies := [];
    AfterNone(m, ops);
    ClosureFits(t);
    while |replies| < |ops|
      invariant |replies| <= |ops| && t.Valid()
      invariant t.Contents() == After(m, ops, |replies|)
      invariant t.start == Max(old(t.start), Peak(m, ops, |replies|))
      invariant forall i :: 0 <= i < |replies| ==> !Faults(After(m, ops, i), ops[i])
      invariant forall i :: 0 <= i < |replies| ==> replies[i] == Reply(After(m, ops, i), ops[i])
      invariant forall k :: 0 <= k < |t.pool| ==> t.pool[k] in old(t.pool) || fresh(t.pool[k])
    {
      var r, fault := Perform(t, ops[|replies|]);
      if fault {
        ClosureFits(t);
        return;
      }
      AfterNext(m, ops, |replies|);
      replies := replies + [r];
    }
  }

  /** From an empty tree, after any history, a lookup finds the longest stored prefix. */
  method RunThenFind4(ops: seq<Op>, key: nat) returns (value: nat, done: nat)
    requires AllFit(ops, 32)
    ensures RanTo(map[], ops, done)
    ensures value == Longest(After(map[], ops, done), WordBits(32, key), 33)
  {
    var t := new Trie(32);
    var replies := Replay(t, ops);
    done := |replies|;
    value := t.Find4(key);
  }

  method RunThenFind6(ops: seq<Op>, key: seq<nat>, beyond: nat) returns (value: nat, done: nat)
    requires AllFit(ops, 128) && |key| == 16
    ensures RanTo(map[], ops, done)
    ensures value == Longest(After(map[], ops, done), ByteBits(key), 129)
  {
    var t := new Trie(128);
    var replies := Replay(t, ops);
    done := |replies|;
    value := t.Find6(key, beyond);
  }

  /** After any history from an empty tree the pool has the pages for the largest tree so far, and no more. */
  method RunThenAllocated(ops: seq<Op>, depth: nat) returns (bytes: nat, done: nat)
    requires (depth == 32 || depth == 128) && AllFit(ops, depth)
    ensures RanTo(map[], ops, done)
    ensures bytes == PAGE_SIZE * Pages(Peak(map[], ops, done))
  {
    var t := new Trie(depth);
    var replies := Replay(t, ops);
    done := |replies|;
    bytes := t.Allocated();
    PeakPositive(map[], ops, done);
  }

  lemma {:induction false} PeakPositive(m: map<Path, nat>, ops: seq<Op>, n: nat)
    requires n <= |ops| && (AllFit(ops, 32) || AllFit(ops, 128))
    ensures Peak(m, ops, n) >= 1
  {
    if n == 0 {
      assert [] in PrefixClosure(m);
      assert {[]} <= PrefixClosure(After(m, ops, 0));
      SubsetSize({[]}, PrefixClosure(After(m, ops, 0)));
    } else {
      PeakPositive(m, ops, n - 1);
    }
  }

  lemma SubsetSize(a: set<Path>, b: set<Path>)
    requires a <= b
    ensures |a| <= |b|
  {
    assert b == a + (b - a);
  }

  /** The shortest history that faults: the empty prefix alone, inserted and then deleted. */
  lemma EmptyPrefixAloneFaults(key: nat, value: nat)
    requires value != BTRIE_NULL
    ensures var ops := [Insert4(key, 0, value), Delete4(key, 0)];
            AllFit(ops, 32) && RanTo(map[], ops, 1) && After(map[], ops, 1) == map[[] := value]
  {
    var ops := [Insert4(key, 0, value), Delete4(key, 0)];
    NoLeadingOnes();
    assert Target(ops[0]) == [] && Target(ops[1]) == [];
    assert After(map[], ops, 0) == map[];
    assert After(map[], ops, 1) == Apply(map[], ops[0]);
  }

  lemma NoLeadingOnes()
    ensures LeadingOnes(WordBits(32, 0)) == 0
  {
    assert !WordBits(32, 0)[0];
  }

  /** Deleting a prefix just inserted restores the tree: its contents and its very nodes. */
  method InsertThenDelete(t: Trie, ins: Op, del: Op) returns (inserted: int, deleted: int, fault: bool)
    requires t.Valid() && (t.depth == 32 || t.depth == 128) && Fits(ins, t.depth) && Fits(del, t.depth)
    requires IsInsert(ins) && !IsInsert(del) && Target(del) == Target(ins) && Target(ins) !in t.Contents()
    modifies t, t.pool
    ensures t.Valid() && inserted == 0
    ensures fault <==> !DeleteIsSafe(old(t.Contents()), Target(ins))
    ensures !fault ==> deleted == 0 && t.Contents() == old(t.Contents()) && t.nodes.Keys == old(t.nodes.Keys)
  {
    hide Btrie.Trie.Valid, Btrie.Trie.Contents, Fits, Target, PrefixClosure;
    ghost var m, p := t.Contents(), Target(ins);
    t.NodesArePrefixClosure();
    inserted, fault := Perform(t, ins);
    deleted, fault := Perform(t, del);
    t.NodesArePrefixClosure();
    assert m[p := ins.value] - {p} == m;
    SafetyOfOthers(m, p, ins.value);
  }

  lemma SafetyOfOthers(m: map<Path, nat>, p: Path, value: nat)
    requires p !in m
    ensures DeleteIsSafe(m[p := value], p) <==> DeleteIsSafe(m, p)
  {
    if p == [] {
      var m' := m[p := value];
      if DeleteIsSafe(m', p) {
        var q :| q in m' && q != [];
        assert q in m;
      }
      if DeleteIsSafe(m, p) {
        var q :| q in m && q != [];
        assert q in m';
      }
    }
  }

  /** An operation on a prefix the key does not start with changes no lookup of that key. */
  method FindAround(t: Trie, op: Op, key: nat) returns (before: nat, after: nat)
    requires t.Valid() && t.depth == 32 && Fits(op, 32)
    modifies t, t.pool
    ensures t.Valid() && (!(Target(op) <= WordBits(32, key)) ==> after == before)
  {
    hide Btrie.Trie.Valid, Btrie.Trie.Contents, Fits, WordBits, Target;
    before := t.Find4(key);
    ghost var m := t.Contents();
    var r, fault := Perform(t, op);
    after := t.Find4(key);
    if !fault && !(Target(op) <= WordBits(32, key)) {
      LookupUnchanged(m, op, WordBits(32, key), 33);
    }
  }

  lemma {:induction false} LookupUnchanged(m: map<Path, nat>, op: Op, K: Path, n: nat)
    requires (Fits(op, 32) || Fits(op, 128)) && !(Target(op) <= K) && n <= |K| + 1
    ensures Longest(Apply(m, op), K, n) == Longest(m, K, n)
  {
    hide Target, Fits;
    if n > 0 {
      LookupUnchanged(m, op, K, n - 1);
      assert K[..n - 1] != Target(op);
    }
  }
}
