/** The binary radix tree of IP prefixes: parent-linked nodes carved out of pages,
    with a free list threaded through `right`. */
module Btrie {
  import opened Words
  import opened Bits

  /** A bit prefix, most significant bit first; true goes right. */
  type Path = seq<bool>

  const BTRIE_NULL: nat := 0xFFFF_FFFF_FFFF_FFFF
  const NODE_SIZE: nat := 32
  const PAGE_SIZE: nat := 4096
  const NODES_PER_PAGE: nat := 128

  /** Where a pool node currently is. */
  datatype Place = Unused | Free(rank: nat) | Detached | InTree(path: Path)

  class Node {
    var right: Node?
    var left: Node?
    var parent: Node?
    var value: nat
    ghost var place: Place
    ghost var slot: nat

    constructor (ghost slot: nat)
      ensures this.slot == slot && place == Unused
    {
      right, left, parent := null, null, null;
      value := 0;
      this.slot := slot;
      place := Unused;
    }

    /** Clears an allocated node and points it at its parent-to-be. */
    method Reset(parent: Node, ghost path: Path)
      modifies this
      ensures right == null && left == null && this.parent == parent && value == BTRIE_NULL
      ensures place == InTree(path) && slot == old(slot)
    {
      right := null;
      left := null;
      this.parent := parent;
      value := BTRIE_NULL;
      place := InTree(path);
    }

    /** Clears the pointer to a child. */
    method Drop(child: Node)
      modifies this
      ensures right == (if old(right) == child then null else old(right))
      ensures left == (if old(right) == child then old(left) else null)
      ensures parent == old(parent) && value == old(value) && place == old(place) && slot == old(slot)
    {
      if right == child {
        right := null;
      } else {
        left := null;
      }
    }

    /** Threads the node onto the free list. */
    method Retire(next: Node?, ghost rank: nat)
      modifies this
      ensures right == next && place == Free(rank)
      ensures left == old(left) && parent == old(parent) && value == old(value) && slot == old(slot)
    {
      right := next;
      place := Free(rank);
    }

    method SetChild(dir: bool, child: Node?)
      modifies this
      ensures right == (if dir then child else old(right)) && left == (if dir then old(left) else child)
      ensures parent == old(parent) && value == old(value) && place == old(place) && slot == old(slot)
    {
      if dir {
        right := child;
      } else {
        left := child;
      }
    }
  }

  function Init(p: Path): (r: Path)
    requires p != []
  {
    p[..|p| - 1]
  }

  function Last(p: Path): (b: bool)
    requires p != []
  {
    p[|p| - 1]
  }

  // ---------- addresses and masks as bit sequences ----------

  /** The W bits of x, most significant first. */
  function WordBits(W: nat, x: nat): (r: Path)
    ensures |r| == W
  {
    seq(W, i requires 0 <= i < W => Bit(x, W - 1 - i))
  }

  /** The bits of a byte string, most significant bit of the first byte first. */
  function ByteBits(x: seq<nat>): (r: Path)
    ensures |r| == 8 * |x|
  {
    seq(8 * |x|, i requires 0 <= i < 8 * |x| => Bit(x[i / 8], 7 - i % 8))
  }

  /** Number of leading true bits. */
  function LeadingOnes(m: Path): (n: nat)
    ensures n <= |m|
    ensures forall i :: 0 <= i < n ==> m[i]
    ensures n < |m| ==> !m[n]
  {
    if m == [] || !m[0] then 0 else 1 + LeadingOnes(m[1..])
  }

  /** The prefix an address and a mask name: as many address bits as the mask has leading ones. */
  function Prefix(key: Path, mask: Path): (p: Path)
    requires |key| == |mask|
    ensures |p| <= |key|
  {
    key[..LeadingOnes(mask)]
  }

  /** bit is the probe for position d of a W-bit word, and zero past the end. */
  ghost predicate Probe(W: nat, bit: nat, d: nat) {
    d <= W && bit == if d == W then 0 else Pow2(W - 1 - d)
  }

  lemma ProbeTest(W: nat, bit: nat, d: nat, x: nat)
    requires Probe(W, bit, d)
    ensures And(bit, x) != 0 <==> d < W && WordBits(W, x)[d]
    ensures And(x, bit) != 0 <==> d < W && WordBits(W, x)[d]
  {
    AndComm(bit, x);
    if d < W {
      AndPow2(x, W - 1 - d);
    }
  }

  lemma ProbeStep(W: nat, bit: nat, d: nat)
    requires Probe(W, bit, d) && d < W
    ensures Probe(W, bit / 2, d + 1)
  {
  }

  /** i, bit is the probe for position d of a 16-byte string; past the end only i matters. */
  ghost predicate ByteProbe(i: nat, bit: nat, d: nat) {
    d <= 128 && i == d / 8 && (d < 128 ==> bit == Pow2(7 - d % 8))
  }

  lemma ByteProbeStart()
    ensures ByteProbe(0, 0x80, 0)
  {
    assert Pow2(7) == 128;
  }

  lemma ByteProbeTest(i: nat, bit: nat, d: nat, x: seq<nat>)
    requires ByteProbe(i, bit, d) && d < 128 && |x| == 16
    ensures And(bit, x[i]) != 0 <==> ByteBits(x)[d]
    ensures And(x[i], bit) != 0 <==> ByteBits(x)[d]
  {
    hide And, Pow2;
    AndComm(bit, x[i]);
    AndPow2(x[i], 7 - d % 8);
  }

  lemma ByteProbeEnd(bit: nat)
    ensures ByteProbe(16, bit, 128)
  {
  }

  /** Halving the bit advances by one position; it becomes zero exactly at a byte boundary. */
  lemma ByteProbeStep(i: nat, bit: nat, d: nat)
    requires ByteProbe(i, bit, d) && d < 128
    ensures bit / 2 == 0 ==> i + 1 == (d + 1) / 8 && (d + 1) % 8 == 0 && ByteProbe(i + 1, 0x80, d + 1)
    ensures bit / 2 == 0 ==> (i + 1 == 16 <==> d + 1 == 128)
    ensures i < 16
    ensures bit / 2 != 0 ==> ByteProbe(i, bit / 2, d + 1) && d + 1 < 128
  {
    assert Pow2(7) == 128 && Pow2(0) == 1;
    if d % 8 < 7 {
      TopPower(7 - d % 8);
    }
  }

  // ---------- the tree ----------

  ghost function Get(m: map<Path, Node>, p: Path): (n: Node?) {
    if p in m then m[p] else null
  }

  /** Removing a path changes one child lookup, and the parent lookups of its own children only. */
  lemma RemoveFacts(m: map<Path, Node>, path: Path, q: Path)
    requires path != [] && q in m && q != path
    ensures Get(m - {path}, q + [false]) == if q == Init(path) && !Last(path) then null else Get(m, q + [false])
    ensures Get(m - {path}, q + [true]) == if q == Init(path) && Last(path) then null else Get(m, q + [true])
    ensures q != [] && Init(q) == path ==> q == path + [false] || q == path + [true]
  {
    assert path == Init(path) + [Last(path)];
    ChildOf(q, Init(path), Last(path));
    if q != [] && Init(q) == path {
      assert q == path + [Last(q)];
    }
  }

  /** Adding a child changes one child lookup and no parent lookup. */
  lemma AddFacts(m: map<Path, Node>, path: Path, dir: bool, next: Node, q: Path)
    ensures Get(m[path + [dir] := next], q + [false]) == if q == path && !dir then next else Get(m, q + [false])
    ensures Get(m[path + [dir] := next], q + [true]) == if q == path && dir then next else Get(m, q + [true])
  {
    ChildOf(q, path, dir);
  }

  class Trie {
    var root: Node?
    var free: Node?
    var start: nat
    var size: nat
    var pool: seq<Node>
    var len: nat
    ghost var nodes: map<Path, Node>
    ghost var freed: seq<Node>
    ghost var detached: Node?
    ghost const depth: nat

    // ---------- the invariant ----------

    /** n lies in the used part of the pool. */
    ghost predicate InPool(n: Node)
      reads this, n
    {
      n.slot < start <= |pool| && pool[n.slot] == n
    }

    /** Local consistency of the node at p: links in both directions and its place. */
    ghost predicate NodeOk(p: Path)
      requires p in nodes
      reads this, nodes[p]
    {
      var n := nodes[p];
      && |p| <= depth
      && InPool(n) && n.place == InTree(p)
      && n.left == Get(nodes, p + [false]) && n.right == Get(nodes, p + [true])
      && (p == [] ==> n.parent == null)
      && (p != [] ==> Init(p) in nodes && n.parent == nodes[Init(p)])
    }

    /** A node below the root without children carries a value. */
    ghost predicate LeafOk(p: Path)
      requires p in nodes
      reads this, nodes[p]
    {
      p != [] && nodes[p].left == null && nodes[p].right == null ==> nodes[p].value != BTRIE_NULL
    }

    ghost predicate TreeOk()
      reads this, nodes.Values
    {
      forall p {:trigger NodeOk(p)} :: p in nodes ==> NodeOk(p)
    }

    ghost predicate LeavesOk(tip: Path)
      reads this, nodes.Values
    {
      forall p {:trigger LeafOk(p)} :: p in nodes && p != tip ==> LeafOk(p)
    }

    ghost predicate FreedOk(i: nat)
      requires i < |freed|
      reads this, freed[i]
    {
      var n := freed[i];
      && InPool(n) && n.place == Free(|freed| - 1 - i)
      && n.right == if i + 1 < |freed| then freed[i + 1] else null
    }

    ghost predicate FreeListOk()
      reads this, freed
    {
      && free == (if freed == [] then null else freed[0])
      && forall i {:trigger FreedOk(i)} :: 0 <= i < |freed| ==> FreedOk(i)
    }

    /** The used slots are partitioned between the tree, the free list and at most one detached node. */
    ghost predicate SlotOk(i: nat)
      requires i < |pool|
      reads this, pool[i]
    {
      var n := pool[i];
      && n.slot == i
      && (i >= start ==> n.place == Unused)
      && (i < start ==>
            match n.place
            case Unused => false
            case Free(k) => k < |freed| && freed[|freed| - 1 - k] == n
            case Detached => n == detached
            case InTree(p) => p in nodes && nodes[p] == n)
    }

    ghost predicate PoolOk()
      reads this, pool
    {
      && |pool| == NODES_PER_PAGE * len
      && size % NODE_SIZE == 0 && size <= PAGE_SIZE && start + size / NODE_SIZE == |pool|
      && forall i {:trigger SlotOk(i)} :: 0 <= i < |pool| ==> SlotOk(i)
    }

    ghost predicate DetachedOk()
      reads this, detached
    {
      detached != null ==> InPool(detached) && detached.place == Detached
    }

    ghost predicate Inv()
      reads this, nodes.Values, freed, pool, detached
    {
      PoolOk() && TreeOk() && FreeListOk() && DetachedOk()
    }

    /** A tree with its pool and free list, whether or not every leaf has a value. */
    ghost predicate Rooted()
      reads this, nodes.Values, freed, pool, detached
    {
      Inv() && detached == null && [] in nodes && root == nodes[[]] && size < PAGE_SIZE
    }

    ghost predicate Valid()
      reads this, nodes.Values, freed, pool, detached
    {
      Rooted() && (forall p {:trigger LeafOk(p)} :: p in nodes ==> LeafOk(p))
    }

    /** The stored prefixes with their values. */
    ghost function Contents(): (m: map<Path, nat>)
      reads this, nodes.Values
    {
      map p | p in nodes && nodes[p].value != BTRIE_NULL :: nodes[p].value
    }

    // ---------- creation ----------

    /** btrie_create: a root without value or children, the first node of the first page. */
    constructor (ghost depth: nat)
      ensures Valid() && this.depth == depth && Contents() == map[] && start == 1
      ensures forall i :: 0 <= i < |pool| ==> fresh(pool[i])
    {
      root, free := null, null;
      start, size, len := 0, 0, 0;
      pool := [];
      nodes, freed, detached := map[], [], null;
      this.depth := depth;
      new;
      var r := Alloc();
      PlantRoot(r);
    }

    /** Makes the detached node the root of the empty tree. */
    method PlantRoot(r: Node)
      requires Inv() && detached == r && nodes == map[] && size < PAGE_SIZE
      modifies this, r
      ensures Valid() && Contents() == map[] && pool == old(pool) && start == old(start)
    {
      PlantTree(r);
      hide NodeOk, TreeOk, LeafOk;
      assert FreeListOk() by {
        hide SlotOk, PoolOk;
        forall i | 0 <= i < |freed| ensures FreedOk(i) {
          assert old(FreedOk(i));
        }
      }
      assert PoolOk() by {
        hide FreedOk, FreeListOk;
        forall i | 0 <= i < |pool| ensures SlotOk(i) {
          assert old(SlotOk(i));
        }
      }
    }

    method PlantTree(r: Node)
      requires InPool(r) && nodes == map[]
      modifies this`root, this`nodes, this`detached, r
      ensures nodes == map[[] := r] && root == r && detached == null
      ensures TreeOk() && LeafOk([]) && Contents() == map[]
      ensures r.slot == old(r.slot) && r.place == InTree([])
    {
      r.right := null;
      r.left := null;
      r.parent := null;
      r.value := BTRIE_NULL;
      r.place := InTree([]);
      root := r;
      nodes, detached := map[[] := r], null;
      assert NodeOk([]);
    }

    // ---------- allocation ----------

    /** A zeroed page of fresh nodes. */
    static method NewPage(ghost first: nat) returns (page: seq<Node>)
      ensures |page| == NODES_PER_PAGE
      ensures forall i :: 0 <= i < |page| ==> fresh(page[i]) && page[i].slot == first + i && page[i].place == Unused
    {
      page := [];
      while |page| < NODES_PER_PAGE
        invariant |page| <= NODES_PER_PAGE
        invariant forall i :: 0 <= i < |page| ==> fresh(page[i]) && page[i].slot == first + i && page[i].place == Unused
      {
        var n := new Node(first + |page|);
        page := page + [n];
      }
    }

    /** Pops the head of the free list. */
    method TakeFree() returns (p: Node)
      requires Inv() && detached == null && free != null
      modifies this, free
      ensures Inv() && detached == p
      ensures nodes == old(nodes) && root == old(root) && pool == old(pool)
      ensures p in pool && old(p.place).Free? && p == old(free)
      ensures start == old(start) && size == old(size) && len == old(len)
    {
      p := free;
      assert FreedOk(0);
      assert SlotOk(p.slot);
      free := free.right;
      p.place := Detached;
      freed := freed[1..];
      detached := p;
      forall q | q in nodes ensures NodeOk(q) {
        assert old(NodeOk(q));
      }
      forall i | 0 <= i < |freed| ensures FreedOk(i) {
        assert old(FreedOk(i + 1));
      }
      assert |freed| > 0 ==> old(FreedOk(1));
      forall i | 0 <= i < |pool| ensures SlotOk(i) {
        assert old(SlotOk(i));
      }
    }

    /** Appends a page to the pool when the current one is used up. */
    method AddPage()
      requires Inv() && detached == null && size < NODE_SIZE
      modifies this
      ensures Inv() && detached == null && size == PAGE_SIZE
      ensures nodes == old(nodes) && root == old(root) && free == old(free) && len == old(len) + 1 && start == old(start)
      ensures start < |pool| && fresh(pool[start])
      ensures forall i :: 0 <= i < |pool| ==> pool[i] in old(pool) || fresh(pool[i])
    {
      assert size == 0;
      var page := NewPage(|pool|);
      start := |pool|;
      pool := pool + page;
      len := len + 1;
      size := PAGE_SIZE;
      assert TreeOk() by {
        hide FreedOk, SlotOk, FreeListOk;
        forall q | q in nodes ensures NodeOk(q) {
          assert old(NodeOk(q));
        }
      }
      hide NodeOk, TreeOk;
      assert FreeListOk() by {
        hide SlotOk;
        forall i | 0 <= i < |freed| ensures FreedOk(i) {
          assert old(FreedOk(i));
        }
      }
      hide FreedOk, FreeListOk;
      forall i | 0 <= i < |pool| ensures SlotOk(i) {
        if i < |old(pool)| {
          assert old(SlotOk(i));
        } else {
          assert pool[i] == page[i - |old(pool)|];
        }
      }
    }

    /** Carves the next node out of the current page. */
    method TakeNext() returns (p: Node)
      requires Inv() && detached == null && start < |pool|
      modifies this, pool[start]
      ensures Inv() && detached == p && p == old(pool[start])
      ensures nodes == old(nodes) && root == old(root) && pool == old(pool) && len == old(len)
      ensures start == old(start) + 1 && size < PAGE_SIZE
    {
      p := pool[start];
      assert SlotOk(start);
      p.place := Detached;
      start := start + 1;
      size := size - NODE_SIZE;
      detached := p;
      forall q | q in nodes ensures NodeOk(q) {
        assert old(NodeOk(q));
      }
      forall i | 0 <= i < |freed| ensures FreedOk(i) {
        assert old(FreedOk(i));
      }
      forall i | 0 <= i < |pool| ensures SlotOk(i) {
        assert old(SlotOk(i));
      }
    }

    /** Takes the head of the free list; only when that is empty the next node of the current page,
        and only when that is used up the first node of a new page. */
    method Alloc() returns (p: Node)
      requires Inv() && detached == null
      modifies this, pool
      ensures Inv() && detached == p && (p in old(pool) || fresh(p))
      ensures old(free) != null ==> p == old(free) && start == old(start) && size == old(size) && len == old(len)
      ensures old(free) == null ==> start == old(start) + 1 && size < PAGE_SIZE
      ensures len == old(len) + (if old(free) == null && old(size) < NODE_SIZE then 1 else 0)
      ensures nodes == old(nodes) && root == old(root)
      ensures forall i :: 0 <= i < |pool| ==> pool[i] in old(pool) || fresh(pool[i])
      ensures forall q :: q in nodes ==> unchanged(nodes[q])
    {
      forall q | q in nodes ensures nodes[q].place.InTree? {
        assert NodeOk(q);
      }
      if free != null {
        assert FreedOk(0) && free in pool;
        p := TakeFree();
      } else {
        if size < NODE_SIZE {
          AddPage();
        }
        assert pool[start] in pool && SlotOk(start);
        p := TakeNext();
      }
    }

    /** The tree is closed under taking the parent. */
    lemma ParentIn(child: Path, b: bool)
      requires TreeOk()
      ensures child + [b] in nodes ==> child in nodes
    {
      if child + [b] in nodes {
        assert NodeOk(child + [b]);
        assert Init(child + [b]) == child;
      }
    }

    /** Hangs the detached node below the node at path, as its child in direction dir. */
    method Link(node: Node, next: Node, dir: bool, ghost path: Path)
      requires Inv() && detached == next
      requires path in nodes && node == nodes[path] && path + [dir] !in nodes && |path| < depth
      modifies this, node, next
      ensures Inv() && detached == null && root == old(root) && pool == old(pool)
      ensures start == old(start) && size == old(size)
      ensures nodes == old(nodes)[path + [dir] := next]
      ensures next.value == BTRIE_NULL && next.left == null && next.right == null
      ensures forall q :: q in old(nodes) ==> nodes[q].value == old(nodes[q].value)
      ensures forall q :: q in old(nodes) && q != path ==> unchanged(nodes[q])
    {
      assert NodeOk(path);
      LinkTree(node, next, dir, path);
      hide NodeOk, TreeOk;
      assert FreeListOk() by {
        hide SlotOk, PoolOk;
        forall i | 0 <= i < |freed| ensures FreedOk(i) {
          assert old(FreedOk(i));
        }
      }
      assert PoolOk() by {
        hide FreedOk, FreeListOk;
        forall i | 0 <= i < |pool| ensures SlotOk(i) {
          assert old(SlotOk(i));
        }
      }
    }

    /** The tree's side of Link: only the parent, the new node and the index of nodes change. */
    method LinkTree(node: Node, next: Node, dir: bool, ghost path: Path)
      requires Inv() && detached == next
      requires path in nodes && node == nodes[path] && path + [dir] !in nodes && |path| < depth
      modifies this`nodes, this`detached, node, next
      ensures TreeOk() && detached == null && nodes == old(nodes)[path + [dir] := next]
      ensures next.value == BTRIE_NULL && next.place == InTree(path + [dir]) && next.slot == old(next.slot)
      ensures next.left == null && next.right == null
      ensures node.value == old(node.value) && node.place == old(node.place) && node.slot == old(node.slot)
      ensures forall q :: q in old(nodes) && q != path ==> nodes[q] != node && nodes[q] != next
    {
      hide FreedOk, SlotOk, PoolOk, FreeListOk;
      ghost var child := path + [dir];
      assert NodeOk(path);
      ParentIn(child, false);
      ParentIn(child, true);
      assert Get(nodes, child + [false]) == null && Get(nodes, child + [true]) == null;
      assert Get(nodes, child) == null && Init(child) == path;
      forall q | q in nodes && q != path ensures nodes[q] != node && nodes[q] != next {
        assert NodeOk(q);
      }
      next.Reset(node, child);
      node.SetChild(dir, next);
      nodes, detached := nodes[child := next], null;
      hide Get;
      forall q | q in nodes ensures NodeOk(q) {
        AddFacts(old(nodes), path, dir, next, q);
        if q != child {
          assert old(NodeOk(q));
        }
      }
    }

    /** Allocates a valueless child of the node at path; it becomes the one leaf allowed to lack a value. */
    method Extend(node: Node, dir: bool, ghost path: Path) returns (next: Node)
      requires Inv() && detached == null && LeavesOk(path)
      requires path in nodes && node == nodes[path] && path + [dir] !in nodes && |path| < depth
      modifies this, pool
      ensures Inv() && detached == null && LeavesOk(path + [dir]) && root == old(root)
      ensures nodes == old(nodes)[path + [dir] := next] && Contents() == old(Contents())
      ensures next.left == null && next.right == null
      ensures start == old(start) + (if old(free) == null then 1 else 0) && (old(size) < PAGE_SIZE ==> size < PAGE_SIZE)
      ensures forall i :: 0 <= i < |pool| ==> pool[i] in old(pool) || fresh(pool[i])
    {
      hide FreedOk, SlotOk, PoolOk, FreeListOk;
      assert NodeOk(path);
      next := Alloc();
      Link(node, next, dir, path);
      assert NodeOk(path);
      forall q | q in nodes && q != path + [dir] ensures LeafOk(q) {
        if q != path {
          assert old(LeafOk(q));
        }
      }
      assert Contents() == old(Contents());
    }

    /** The child pointer in direction dir is the node one bit further down, if any. */
    lemma ChildIs(path: Path, dir: bool)
      requires TreeOk() && path in nodes
      ensures (if dir then nodes[path].right else nodes[path].left) == Get(nodes, path + [dir])
    {
      assert NodeOk(path);
    }

    /** Writes the value field of the node at path. */
    method SetValue(node: Node, value: nat, ghost path: Path)
      requires Inv() && path in nodes && node == nodes[path]
      modifies node`value
      ensures Inv() && node.value == value
      ensures forall q :: q in nodes && q != path ==> nodes[q] != node
    {
      assert NodeOk(path);
      forall q | q in nodes && q != path ensures nodes[q] != node {
        assert NodeOk(q);
      }
      node.value := value;
      assert TreeOk() by {
        hide FreedOk, SlotOk;
        forall q | q in nodes ensures NodeOk(q) {
          assert old(NodeOk(q));
        }
      }
      hide NodeOk;
      assert FreeListOk() by {
        hide SlotOk;
        forall i | 0 <= i < |freed| ensures FreedOk(i) {
          assert old(FreedOk(i));
        }
      }
      assert PoolOk() by {
        hide FreedOk;
        forall i | 0 <= i < |pool| ensures SlotOk(i) {
          assert old(SlotOk(i));
        }
      }
    }

    /** Writes a value at the node at path, the only leaf that may lack one. */
    method Store(node: Node, value: nat, ghost path: Path)
      requires Rooted() && LeavesOk(path) && path in nodes && node == nodes[path] && path !in Contents()
      modifies node`value
      ensures Rooted() && Contents() == Entered(old(Contents()), path, value)
      ensures Valid() <==> value != BTRIE_NULL || path == [] || node.left != null || node.right != null
    {
      hide NodeOk, FreedOk, SlotOk;
      SetValue(node, value, path);
      forall q | q in nodes && q != path ensures LeafOk(q) {
        assert old(LeafOk(q));
      }
      assert Valid() <==> LeafOk(path);
    }

    /** First loop of btrie_insert: follows the masked key as far as the tree goes. */
    method Walk4(key: nat, mask: nat) returns (node: Node, next: Node?, bit: nat, ghost d: nat)
      requires Valid() && depth == 32
      ensures var K, M := WordBits(32, key), WordBits(32, mask);
              && d <= LeadingOnes(M) <= 32 && Probe(32, bit, d)
              && K[..d] in nodes && node == nodes[K[..d]]
              && (next != null ==> d == LeadingOnes(M))
              && (next == null ==> d < LeadingOnes(M) && K[..d + 1] !in nodes)
    {
      hide NodeOk, FreedOk, SlotOk, LeafOk, Pow2, And;
      ghost var K, M := WordBits(32, key), WordBits(32, mask);
      bit := Pow2(31);
      node, next := root, root;
      d := 0;
      assert K[..0] == [];
      while And(bit, mask) != 0
        invariant d <= LeadingOnes(M) && Probe(32, bit, d)
        invariant K[..d] in nodes && node == nodes[K[..d]] && next == node
        decreases 32 - d
      {
        ProbeTest(32, bit, d, mask);
        ProbeTest(32, bit, d, key);
        ChildIs(K[..d], K[d]);
        assert K[..d + 1] == K[..d] + [K[d]];
        if And(key, bit) != 0 {
          next := node.right;
        } else {
          next := node.left;
        }
        if next == null {
          return;
        }
        ProbeStep(32, bit, d);
        bit := bit / 2;
        node := next;
        d := d + 1;
      }
      ProbeTest(32, bit, d, mask);
    }

    /** Once a prefix of K has left the tree, every longer prefix has. */
    lemma AbsentBelow(K: Path, i: nat, j: nat)
      requires TreeOk() && i <= j <= |K| && K[..i] !in nodes
      ensures K[..j] !in nodes
      decreases j
    {
      if i < j {
        hide NodeOk;
        AbsentBelow(K, i, j - 1);
        ParentIn(K[..j - 1], K[j - 1]);
        assert K[..j] == K[..j - 1] + [K[j - 1]];
      }
    }

    /** The tree is open for growth along K: nothing below K[..d] and a possibly valueless tip. */
    ghost predicate Growing(K: Path, d: nat, L: nat)
      requires d <= L <= |K|
      reads this, nodes.Values, freed, pool, detached
    {
      && Rooted() && K[..d] in nodes && LeavesOk(K[..d])
      && forall j :: d < j <= L ==> K[..j] !in nodes
    }

    lemma StartGrowing(K: Path, d: nat, L: nat)
      requires Valid() && d <= L <= |K| && K[..d] in nodes && (d < L ==> K[..d + 1] !in nodes)
      ensures Growing(K, d, L)
    {
      hide NodeOk, FreedOk, SlotOk, LeafOk;
      forall j | d < j <= L ensures K[..j] !in nodes {
        AbsentBelow(K, d + 1, j);
      }
    }

    /** One step of growth. */
    method Grow(node: Node, dir: bool, ghost K: Path, ghost d: nat, ghost L: nat) returns (next: Node)
      requires d < L <= |K| && L <= depth && Growing(K, d, L) && node == nodes[K[..d]] && dir == K[d]
      modifies this, pool
      ensures Growing(K, d + 1, L) && next == nodes[K[..d + 1]] && next.left == null && next.right == null
      ensures Contents() == old(Contents()) && start == Max(old(start), |nodes|) && |nodes| > |old(nodes)|
      ensures forall i :: 0 <= i < |pool| ==> pool[i] in old(pool) || fresh(pool[i])
    {
      hide NodeOk, FreedOk, SlotOk, LeafOk;
      assert K[..d] + [dir] == K[..d + 1];
      UsedCount();
      next := Extend(node, dir, K[..d]);
      assert |nodes| == |old(nodes)| + 1;
    }

    /** Second loop of btrie_insert: appends the missing nodes. */
    method Spread4(node0: Node, bit0: nat, key: nat, mask: nat, ghost d0: nat) returns (node: Node)
      requires Valid() && depth == 32 && Probe(32, bit0, d0)
      requires d0 < LeadingOnes(WordBits(32, mask)) && Growing(WordBits(32, key), d0, LeadingOnes(WordBits(32, mask)))
      requires node0 == nodes[WordBits(32, key)[..d0]]
      modifies this, pool
      ensures forall i :: 0 <= i < |pool| ==> pool[i] in old(pool) || fresh(pool[i])
      ensures start == Max(old(start), |nodes|) && Contents() == old(Contents())
      ensures Growing(WordBits(32, key), LeadingOnes(WordBits(32, mask)), LeadingOnes(WordBits(32, mask)))
      ensures var p := Prefix(WordBits(32, key), WordBits(32, mask)); p in nodes && node == nodes[p] && node in pool
      ensures Prefix(WordBits(32, key), WordBits(32, mask)) !in Contents() && node.left == null && node.right == null
    {
      hide NodeOk, FreedOk, SlotOk, LeafOk, Pow2, And, Valid, Growing, Rooted, Inv, LeadingOnes;
      ghost var K, M := WordBits(32, key), WordBits(32, mask);
      ghost var L := LeadingOnes(M);
      node := node0;
      var bit := bit0;
      ghost var d := d0;
      NotStored(K, d, L);
      TipIn(K, d, L);
      while And(bit, mask) != 0
        invariant d <= L && Probe(32, bit, d)
        invariant Growing(K, d, L) && K[..d] in nodes && node == nodes[K[..d]]
        invariant start == Max(old(start), |nodes|)
        invariant Contents() == old(Contents()) && (d > d0 ==> node.left == null && node.right == null)
        invariant forall i :: 0 <= i < |pool| ==> pool[i] in old(pool) || fresh(pool[i])
        decreases 32 - d
      {
        ProbeTest(32, bit, d, mask);
        ProbeTest(32, bit, d, key);
        ProbeStep(32, bit, d);
        node := Grow(node, And(key, bit) != 0, K, d, L);
        bit := bit / 2;
        d := d + 1;
        TipIn(K, d, L);
      }
      ProbeTest(32, bit, d, mask);
      TipInPool(K, d, L);
    }

    /** The missing nodes, and then the value. */
    method Append4(node0: Node, bit0: nat, key: nat, mask: nat, value: nat, ghost d0: nat)
      requires Valid() && depth == 32 && Probe(32, bit0, d0)
      requires d0 < LeadingOnes(WordBits(32, mask)) && Growing(WordBits(32, key), d0, LeadingOnes(WordBits(32, mask)))
      requires node0 == nodes[WordBits(32, key)[..d0]]
      modifies this, pool
      ensures forall i :: 0 <= i < |pool| ==> pool[i] in old(pool) || fresh(pool[i])
      ensures start == Max(old(start), |nodes|)
      ensures Rooted() && (Valid() <==> value != BTRIE_NULL)
      ensures Contents() == Entered(old(Contents()), Prefix(WordBits(32, key), WordBits(32, mask)), value)
    {
      hide NodeOk, FreedOk, SlotOk, LeafOk, Valid, Growing, Rooted, Inv, LeadingOnes, Entered;
      var node := Spread4(node0, bit0, key, mask, d0);
      Finish(node, value, WordBits(32, key), LeadingOnes(WordBits(32, mask)));
    }

    /** What is still missing from the tree has no entry. */
    lemma NotStored(K: Path, d: nat, L: nat)
      requires d < L <= |K| && Growing(K, d, L)
      ensures K[..L] !in Contents() && |nodes| <= start
    {
      hide NodeOk, FreedOk, SlotOk, LeafOk;
      NodesFit();
    }

    lemma TipInPool(K: Path, d: nat, L: nat)
      requires d <= L <= |K| && Growing(K, d, L)
      ensures K[..d] in nodes && nodes[K[..d]] in pool
    {
      assert NodeOk(K[..d]);
    }

    lemma TipIn(K: Path, d: nat, L: nat)
      requires d <= L <= |K| && Growing(K, d, L)
      ensures K[..d] in nodes
    {
    }

    /** The value write that ends an insertion. */
    method Finish(node: Node, value: nat, ghost K: Path, ghost L: nat)
      requires L <= |K| && Growing(K, L, L) && node == nodes[K[..L]] && K[..L] !in Contents()
      modifies node`value
      ensures Rooted() && Contents() == Entered(old(Contents()), K[..L], value)
      ensures Valid() <==> value != BTRIE_NULL || K[..L] == [] || node.left != null || node.right != null
    {
      hide NodeOk, FreedOk, SlotOk, LeafOk;
      Store(node, value, K[..L]);
    }

    /** btrie_insert: fails exactly when the prefix already has a value, and otherwise adds that one entry.
        A null value adds none, and leaves a leaf without value exactly when the prefix was not a node. */
    method Insert4(key: nat, mask: nat, value: nat) returns (r: int)
      requires Valid() && depth == 32
      modifies this, pool
      ensures forall i :: 0 <= i < |pool| ==> pool[i] in old(pool) || fresh(pool[i])
      ensures Rooted() && start == Max(old(start), |nodes|)
      ensures var p := Prefix(WordBits(32, key), WordBits(32, mask));
              && (r == 0 || r == -1) && (r == 0 <==> p !in old(Contents()))
              && Contents() == (if r == 0 then Entered(old(Contents()), p, value) else old(Contents()))
              && (Valid() <==> value != BTRIE_NULL || p in old(nodes))
    {
      hide NodeOk, FreedOk, SlotOk, LeafOk, Pow2, And;
      ghost var K := WordBits(32, key);
      var node, next, bit;
      ghost var d;
      NodesFit();
      node, next, bit, d := Walk4(key, mask);
      NodeInPool(K[..d]);
      StartGrowing(K, d, LeadingOnes(WordBits(32, mask)));
      if next != null {
        if node.value != BTRIE_NULL {
          return -1;
        }
        Finish(node, value, K, d);
        return 0;
      }
      Append4(node, bit, key, mask, value, d);
      return 0;
    }

    lemma NodeInPool(p: Path)
      requires Inv() && p in nodes
      ensures nodes[p] in pool
    {
      assert NodeOk(p);
    }

    // ---------- deletion ----------

    /** Takes the childless node at path out of the tree. */
    method Detach(node: Node, parent: Node, ghost path: Path)
      requires Inv() && detached == null && path in nodes && path != [] && node == nodes[path]
      requires node.left == null && node.right == null && node.parent == parent
      modifies this, node, parent
      ensures Inv() && detached == node && root == old(root) && pool == old(pool)
      ensures start == old(start) && size == old(size)
      ensures nodes == old(nodes) - {path} && Init(path) in nodes && parent == nodes[Init(path)]
      ensures parent.value == old(parent.value)
      ensures forall q :: q in nodes && q != Init(path) ==> nodes[q] != node && nodes[q] != parent
    {
      assert NodeOk(path) && NodeOk(Init(path));
      DetachTree(node, parent, path);
      hide NodeOk, TreeOk;
      assert FreeListOk() by {
        hide SlotOk, PoolOk;
        forall i | 0 <= i < |freed| ensures FreedOk(i) {
          assert old(FreedOk(i));
        }
      }
      assert PoolOk() by {
        hide FreedOk, FreeListOk;
        forall i | 0 <= i < |pool| ensures SlotOk(i) {
          assert old(SlotOk(i));
        }
      }
    }

    /** The tree's side of Detach: only the node, its parent and the index of nodes change. */
    method DetachTree(node: Node, parent: Node, ghost path: Path)
      requires Inv() && detached == null && path in nodes && path != [] && node == nodes[path]
      requires node.left == null && node.right == null && node.parent == parent
      modifies this`nodes, this`detached, node, parent
      ensures TreeOk() && detached == node && nodes == old(nodes) - {path}
      ensures Init(path) in nodes && parent == nodes[Init(path)]
      ensures node.place == Detached && node.slot == old(node.slot)
      ensures parent.value == old(parent.value) && parent.place == old(parent.place) && parent.slot == old(parent.slot)
      ensures forall q :: q in nodes && q != Init(path) ==> nodes[q] != node && nodes[q] != parent
    {
      hide FreedOk, SlotOk, PoolOk, FreeListOk;
      assert NodeOk(path) && NodeOk(Init(path)) && path == Init(path) + [Last(path)];
      forall q | q in nodes ensures (nodes[q] == node <==> q == path) && (nodes[q] == parent <==> q == Init(path)) {
        assert NodeOk(q);
      }
      parent.Drop(node);
      node.place := Detached;
      nodes, detached := nodes - {path}, node;
      forall q | q in nodes ensures NodeOk(q) {
        assert old(NodeOk(q));
        RemoveFacts(old(nodes), path, q);
      }
    }

    /** Pushes the detached node on the free list, threaded through `right`. */
    method Push(node: Node)
      requires Inv() && detached == node
      modifies this, node
      ensures Inv() && detached == null && root == old(root) && pool == old(pool) && nodes == old(nodes)
      ensures start == old(start) && size == old(size)
      ensures forall q :: q in nodes ==> nodes[q] != node
    {
      forall q | q in nodes ensures nodes[q] != node {
        assert NodeOk(q);
      }
      node.Retire(free, |freed|);
      free, freed, detached := node, [node] + freed, null;
      assert TreeOk() by {
        hide FreedOk, SlotOk;
        forall q | q in nodes ensures NodeOk(q) {
          assert old(NodeOk(q));
        }
      }
      hide NodeOk;
      assert FreeListOk() by {
        hide SlotOk;
        forall i | 0 <= i < |freed| ensures FreedOk(i) {
          if i > 0 {
            assert old(FreedOk(i - 1));
          }
        }
      }
      assert PoolOk() by {
        hide FreedOk;
        forall i | 0 <= i < |pool| ensures SlotOk(i) {
          assert old(SlotOk(i));
        }
      }
    }

    /** One round of the unlink loop: the node at path leaves the tree for the free list. */
    method Unlink(node: Node, ghost path: Path) returns (parent: Node)
      requires Inv() && detached == null && path in nodes && path != [] && node == nodes[path]
      requires node.left == null && node.right == null && LeavesOk(path)
      modifies this, pool
      ensures Inv() && detached == null && root == old(root) && pool == old(pool)
      ensures start == old(start) && size == old(size)
      ensures nodes == old(nodes) - {path} && Init(path) in nodes && parent == nodes[Init(path)]
      ensures LeavesOk(Init(path)) && Contents() == old(Contents()) - {path}
    {
      assert NodeOk(path) && NodeOk(Init(path));
      hide NodeOk, FreedOk, SlotOk;
      parent := node.parent;
      Detach(node, parent, path);
      Push(node);
      forall q | q in nodes && q != Init(path) ensures LeafOk(q) {
        assert old(LeafOk(q));
      }
      assert Contents() == old(Contents()) - {path};
    }

    /** The unlink loop of btrie_delete: frees the node at path and then every ancestor
        left without children and value, up to but excluding the root. */
    method Prune(node0: Node, ghost path0: Path)
      requires Valid() && path0 in nodes && path0 != [] && node0 == nodes[path0]
      requires node0.left == null && node0.right == null
      modifies this, pool
      ensures Valid() && Contents() == old(Contents()) - {path0} && pool == old(pool) && start == old(start)
    {
      hide NodeOk, FreedOk, SlotOk, Inv;
      var node := node0;
      ghost var path := path0;
      while true
        invariant Inv() && detached == null && pool == old(pool) && start == old(start) && size == old(size)
        invariant path in nodes && path != [] && node == nodes[path] && LeavesOk(path)
        invariant node.left == null && node.right == null
        invariant [] in nodes && root == nodes[[]]
        invariant path == path0 ==> Contents() == old(Contents())
        invariant path != path0 ==> Contents() == old(Contents()) - {path0} && node.value == BTRIE_NULL
        invariant |path| <= |path0| && (|path| == |path0| ==> path == path0)
        decreases |path|
      {
        ghost var before := Contents();
        node := Unlink(node, path);
        path := Init(path);
        if node.right != null || node.left != null {
          break;
        }
        if node.value != BTRIE_NULL {
          break;
        }
        RootHasNoParent(path);
        if node.parent == null {
          break;
        }
      }
    }

    lemma RootHasNoParent(path: Path)
      requires Inv() && path in nodes
      ensures nodes[path].parent == null <==> path == []
    {
      assert NodeOk(path);
    }

    /** Erases the value of a node that keeps its children. */
    method Erase(node: Node, ghost path: Path)
      requires Valid() && path in nodes && node == nodes[path] && (node.left != null || node.right != null)
      modifies node`value
      ensures Valid() && Contents() == old(Contents()) - {path}
    {
      hide NodeOk, FreedOk, SlotOk;
      SetValue(node, BTRIE_NULL, path);
      forall q | q in nodes ensures LeafOk(q) {
        assert old(LeafOk(q));
      }
    }

    /** Walk of btrie_delete: the node named by the masked key, or null. */
    method Seek4(key: nat, mask: nat) returns (node: Node?)
      requires Valid() && depth == 32
      ensures node == Get(nodes, Prefix(WordBits(32, key), WordBits(32, mask)))
    {
      hide NodeOk, FreedOk, SlotOk, LeafOk, Pow2, And;
      ghost var K, M := WordBits(32, key), WordBits(32, mask);
      var bit := Pow2(31);
      node := root;
      ghost var d: nat := 0;
      assert K[..0] == [];
      while node != null && And(bit, mask) != 0
        invariant d <= LeadingOnes(M) && Probe(32, bit, d)
        invariant node == Get(nodes, K[..d])
        decreases 32 - d
      {
        ProbeTest(32, bit, d, mask);
        ProbeTest(32, bit, d, key);
        ChildIs(K[..d], K[d]);
        assert K[..d + 1] == K[..d] + [K[d]];
        ProbeStep(32, bit, d);
        if And(key, bit) != 0 {
          node := node.right;
        } else {
          node := node.left;
        }
        bit := bit / 2;
        d := d + 1;
      }
      ProbeTest(32, bit, d, mask);
      if node == null {
        AbsentBelow(K, d, LeadingOnes(M));
      }
    }

    /** What both deletes do once the node is found. The unlink loop reads through node->parent at
        once; when that is null the source faults, and the model stops there and says so. */
    method DeleteAt(node: Node?, ghost p: Path) returns (r: int, fault: bool)
      requires Valid() && node == Get(nodes, p)
      modifies this, pool
      ensures Valid() && pool == old(pool) && start == old(start)
      ensures fault <==> !DeleteIsSafe(old(Contents()), p)
      ensures fault ==> Contents() == old(Contents())
      ensures !fault ==> (r == 0 || r == -1) && (r == 0 <==> p in old(Contents())) && Contents() == old(Contents()) - {p}
    {
      hide NodeOk, FreedOk, SlotOk;
      NullParentIff(p);
      if node == null {
        return -1, false;
      }
      NodeInPool(p);
      if node.right != null || node.left != null {
        if node.value != BTRIE_NULL {
          Erase(node, p);
          return 0, false;
        }
        return -1, false;
      }
      if node.parent == null {
        return 0, true;
      }
      RootHasNoParent(p);
      assert LeafOk(p);
      Prune(node, p);
      return 0, false;
    }

    /** btrie_delete: succeeds exactly when the prefix has a value, and removes that one entry;
        faults exactly when the empty prefix is deleted while nothing else is stored. */
    method Delete4(key: nat, mask: nat) returns (r: int, fault: bool)
      requires Valid() && depth == 32
      modifies this, pool
      ensures Valid() && pool == old(pool) && start == old(start)
      ensures var p := Prefix(WordBits(32, key), WordBits(32, mask));
              && (fault <==> !DeleteIsSafe(old(Contents()), p))
              && (fault ==> Contents() == old(Contents()))
              && (!fault ==> (r == 0 || r == -1) && (r == 0 <==> p in old(Contents()))
                             && Contents() == old(Contents()) - {p})
    {
      var node := Seek4(key, mask);
      r, fault := DeleteAt(node, Prefix(WordBits(32, key), WordBits(32, mask)));
    }

    /** A childless root means exactly that nothing is stored below it. */
    lemma RootIsLeaf()
      requires Valid()
      ensures root.left == null && root.right == null <==> !DeleteIsSafe(Contents(), [])
    {
      hide FreedOk, SlotOk;
      assert NodeOk([]);
      if root.left == null && root.right == null {
        hide LeafOk;
        forall q | q in nodes ensures q == [] {
          if q != [] {
            assert q[..|q|] == q;
            if q[0] {
              assert q[..1] == [] + [true];
            } else {
              assert q[..1] == [] + [false];
            }
            AbsentBelow(q, 1, |q|);
          }
        }
      } else {
        var p := ValuedBelow([] + [root.left == null]);
      }
    }

    /** The unlink loop starts at a node without parent exactly when the empty prefix is deleted
        while nothing else is stored. */
    lemma NullParentIff(p: Path)
      requires Valid()
      ensures p in nodes && nodes[p].left == null && nodes[p].right == null && nodes[p].parent == null
              <==> !DeleteIsSafe(Contents(), p)
    {
      hide NodeOk, FreedOk, SlotOk, LeafOk;
      RootIsLeaf();
      if p in nodes {
        RootHasNoParent(p);
      }
    }

    // ---------- lookup ----------

    /** btrie_find: the value of the longest stored prefix of the key. */
    method Find4(key: nat) returns (value: nat)
      requires Valid() && depth == 32
      ensures value == Longest(Contents(), WordBits(32, key), 33)
    {
      hide NodeOk, FreedOk, SlotOk, LeafOk, Pow2, And;
      ghost var K := WordBits(32, key);
      var bit := Pow2(31);
      value := BTRIE_NULL;
      var node := root;
      ghost var d: nat := 0;
      assert K[..0] == [];
      while node != null
        invariant d <= 33 && (d <= 32 ==> Probe(32, bit, d) && node == Get(nodes, K[..d])) && (d == 33 ==> node == null)
        invariant value == Longest(Contents(), K, d)
        decreases 33 - d
      {
        if node.value != BTRIE_NULL {
          value := node.value;
        }
        ProbeTest(32, bit, d, key);
        if d < 32 {
          ChildIs(K[..d], K[d]);
          assert K[..d + 1] == K[..d] + [K[d]];
          ProbeStep(32, bit, d);
        } else {
          NoChildAtBottom(K[..d]);
        }
        if And(key, bit) != 0 {
          node := node.right;
        } else {
          node := node.left;
        }
        bit := bit / 2;
        d := d + 1;
      }
      LongestFrom(K, d, 33);
    }

    lemma NoChildAtBottom(p: Path)
      requires Inv() && p in nodes && |p| == depth
      ensures nodes[p].left == null && nodes[p].right == null
    {
      assert NodeOk(p);
      forall b: bool | p + [b] in nodes ensures |p + [b]| <= depth {
        assert NodeOk(p + [b]);
      }
    }

    /** Past the point where K leaves the tree, longer prefixes contribute nothing. */
    lemma LongestFrom(K: Path, d: nat, n: nat)
      requires Valid() && d <= n <= |K| + 1 && (d <= |K| ==> K[..d] !in nodes)
      ensures Longest(Contents(), K, d) == Longest(Contents(), K, n)
      decreases n
    {
      hide NodeOk, FreedOk, SlotOk, LeafOk;
      if d < n {
        LongestFrom(K, d, n - 1);
        AbsentBelow(K, d, n - 1);
      }
    }

    // ---------- the same operations on 128-bit addresses, byte by byte ----------

    /** First loop of btrie_insert_a6. The mask is never indexed beyond byte 15. */
    method Walk6(key: seq<nat>, mask: seq<nat>) returns (node: Node, next: Node?, i: nat, bit: nat, ghost d: nat)
      requires Valid() && depth == 128 && |key| == 16 && |mask| == 16
      ensures var K, M := ByteBits(key), ByteBits(mask);
              && d <= LeadingOnes(M) <= 128 && ByteProbe(i, bit, d)
              && K[..d] in nodes && node == nodes[K[..d]]
              && (next != null ==> d == LeadingOnes(M))
              && (next == null ==> d < LeadingOnes(M) && K[..d + 1] !in nodes)
    {
      hide NodeOk, FreedOk, SlotOk, LeafOk, Pow2, And, ByteProbe, ByteBits;
      ghost var K, M := ByteBits(key), ByteBits(mask);
      ByteProbeStart();
      i, bit := 0, 0x80;
      node, next := root, root;
      d := 0;
      assert K[..0] == [];
      while And(bit, mask[i]) != 0
        invariant d < 128 && i < 16 && d <= LeadingOnes(M) && ByteProbe(i, bit, d)
        invariant K[..d] in nodes && node == nodes[K[..d]] && next == node
        decreases 128 - d
      {
        ByteProbeTest(i, bit, d, mask);
        ByteProbeTest(i, bit, d, key);
        ChildIs(K[..d], K[d]);
        assert K[..d + 1] == K[..d] + [K[d]];
        if And(key[i], bit) != 0 {
          next := node.right;
        } else {
          next := node.left;
        }
        if next == null {
          return;
        }
        ByteProbeStep(i, bit, d);
        bit := bit / 2;
        node := next;
        d := d + 1;
        if bit == 0 {
          i := i + 1;
          if i == 16 {
            ByteProbeEnd(bit);
            return;
          }
          bit := 0x80;
        }
      }
      ByteProbeTest(i, bit, d, mask);
    }

    /** Second loop of btrie_insert_a6: appends the missing nodes. */
    method Spread6(node0: Node, i0: nat, bit0: nat, key: seq<nat>, mask: seq<nat>, ghost d0: nat) returns (node: Node)
      requires Valid() && depth == 128 && |key| == 16 && |mask| == 16
      requires d0 < LeadingOnes(ByteBits(mask)) && ByteProbe(i0, bit0, d0)
      requires Growing(ByteBits(key), d0, LeadingOnes(ByteBits(mask)))
      requires node0 == nodes[ByteBits(key)[..d0]]
      modifies this, pool
      ensures forall i :: 0 <= i < |pool| ==> pool[i] in old(pool) || fresh(pool[i])
      ensures start == Max(old(start), |nodes|) && Contents() == old(Contents())
      ensures Growing(ByteBits(key), LeadingOnes(ByteBits(mask)), LeadingOnes(ByteBits(mask)))
      ensures var p := Prefix(ByteBits(key), ByteBits(mask)); p in nodes && node == nodes[p] && node in pool
      ensures Prefix(ByteBits(key), ByteBits(mask)) !in Contents() && node.left == null && node.right == null
    {
      hide NodeOk, FreedOk, SlotOk, LeafOk, Pow2, And, ByteProbe, ByteBits;
      hide Valid, Growing, Rooted, Inv, LeadingOnes, Contents;
      ghost var K, M := ByteBits(key), ByteBits(mask);
      ghost var L := LeadingOnes(M);
      node := node0;
      var i: nat, bit: nat := i0, bit0;
      ghost var d := d0;
      NotStored(K, d, L);
      TipIn(K, d, L);
      ByteProbeStep(i, bit, d);
      ghost var stopped := false;
      while And(bit, mask[i]) != 0
        invariant d < 128 && i < 16 && d <= L && ByteProbe(i, bit, d)
        invariant Growing(K, d, L) && K[..d] in nodes && node == nodes[K[..d]]
        invariant start == Max(old(start), |nodes|)
        invariant Contents() == old(Contents()) && (d > d0 ==> node.left == null && node.right == null)
        invariant forall k :: 0 <= k < |pool| ==> pool[k] in old(pool) || fresh(pool[k])
        decreases 128 - d
      {
        ByteProbeTest(i, bit, d, mask);
        ByteProbeTest(i, bit, d, key);
        ByteProbeStep(i, bit, d);
        node := Grow(node, And(key[i], bit) != 0, K, d, L);
        bit := bit / 2;
        d := d + 1;
        TipIn(K, d, L);
        if bit == 0 {
          i := i + 1;
          if i == 16 {
            stopped := true;
            break;
          }
          bit := 0x80;
        }
      }
      if !stopped {
        ByteProbeTest(i, bit, d, mask);
      }
      TipInPool(K, d, L);
    }

    /** The missing nodes, and then the value. */
    method Append6(node0: Node, i0: nat, bit0: nat, key: seq<nat>, mask: seq<nat>, value: nat, ghost d0: nat)
      requires Valid() && depth == 128 && |key| == 16 && |mask| == 16
      requires d0 < LeadingOnes(ByteBits(mask)) && ByteProbe(i0, bit0, d0)
      requires Growing(ByteBits(key), d0, LeadingOnes(ByteBits(mask)))
      requires node0 == nodes[ByteBits(key)[..d0]]
      modifies this, pool
      ensures forall i :: 0 <= i < |pool| ==> pool[i] in old(pool) || fresh(pool[i])
      ensures start == Max(old(start), |nodes|)
      ensures Rooted() && (Valid() <==> value != BTRIE_NULL)
      ensures Contents() == Entered(old(Contents()), Prefix(ByteBits(key), ByteBits(mask)), value)
    {
      hide NodeOk, FreedOk, SlotOk, LeafOk, Valid, Growing, Rooted, Inv, LeadingOnes, Entered;
      var node := Spread6(node0, i0, bit0, key, mask, d0);
      Finish(node, value, ByteBits(key), LeadingOnes(ByteBits(mask)));
    }

    /** btrie_insert_a6 */
    method Insert6(key: seq<nat>, mask: seq<nat>, value: nat) returns (r: int)
      requires Valid() && depth == 128 && |key| == 16 && |mask| == 16
      modifies this, pool
      ensures forall i :: 0 <= i < |pool| ==> pool[i] in old(pool) || fresh(pool[i])
      ensures Rooted() && start == Max(old(start), |nodes|)
      ensures var p := Prefix(ByteBits(key), ByteBits(mask));
              && (r == 0 || r == -1) && (r == 0 <==> p !in old(Contents()))
              && Contents() == (if r == 0 then Entered(old(Contents()), p, value) else old(Contents()))
              && (Valid() <==> value != BTRIE_NULL || p in old(nodes))
    {
      hide NodeOk, FreedOk, SlotOk, LeafOk, Pow2, And;
      ghost var K := ByteBits(key);
      var node, next, i, bit;
      ghost var d;
      NodesFit();
      node, next, i, bit, d := Walk6(key, mask);
      NodeInPool(K[..d]);
      StartGrowing(K, d, LeadingOnes(ByteBits(mask)));
      if next != null {
        if node.value != BTRIE_NULL {
          return -1;
        }
        Finish(node, value, K, d);
        return 0;
      }
      Append6(node, i, bit, key, mask, value, d);
      return 0;
    }

    /** Walk of btrie_delete_a6. */
    method Seek6(key: seq<nat>, mask: seq<nat>) returns (node: Node?)
      requires Valid() && depth == 128 && |key| == 16 && |mask| == 16
      ensures node == Get(nodes, Prefix(ByteBits(key), ByteBits(mask)))
    {
      hide NodeOk, FreedOk, SlotOk, LeafOk, Pow2, And, ByteProbe, ByteBits;
      ghost var K, M := ByteBits(key), ByteBits(mask);
      ByteProbeStart();
      var i: nat, bit: nat := 0, 0x80;
      node := root;
      ghost var d: nat := 0;
      assert K[..0] == [];
      while node != null && And(bit, mask[i]) != 0
        invariant d < 128 && i < 16 && d <= LeadingOnes(M) && ByteProbe(i, bit, d)
        invariant node == Get(nodes, K[..d])
        decreases 128 - d
      {
        ByteProbeTest(i, bit, d, mask);
        ByteProbeTest(i, bit, d, key);
        ChildIs(K[..d], K[d]);
        assert K[..d + 1] == K[..d] + [K[d]];
        ByteProbeStep(i, bit, d);
        if And(key[i], bit) != 0 {
          node := node.right;
        } else {
          node := node.left;
        }
        bit := bit / 2;
        d := d + 1;
        if bit == 0 {
          i := i + 1;
          if i == 16 {
            return;
          }
          bit := 0x80;
        }
      }
      if node == null {
        AbsentBelow(K, d, LeadingOnes(M));
      } else {
        ByteProbeTest(i, bit, d, mask);
      }
    }

    /** btrie_delete_a6 */
    method Delete6(key: seq<nat>, mask: seq<nat>) returns (r: int, fault: bool)
      requires Valid() && depth == 128 && |key| == 16 && |mask| == 16
      modifies this, pool
      ensures Valid() && pool == old(pool) && start == old(start)
      ensures var p := Prefix(ByteBits(key), ByteBits(mask));
              && (fault <==> !DeleteIsSafe(old(Contents()), p))
              && (fault ==> Contents() == old(Contents()))
              && (!fault ==> (r == 0 || r == -1) && (r == 0 <==> p in old(Contents()))
                             && Contents() == old(Contents()) - {p})
    {
      var node := Seek6(key, mask);
      r, fault := DeleteAt(node, Prefix(ByteBits(key), ByteBits(mask)));
    }

    /** btrie_find_a6. At depth 128 the code reads one byte past the key, here `beyond`;
        the answer does not depend on it. */
    method Find6(key: seq<nat>, beyond: nat) returns (value: nat)
      requires Valid() && depth == 128 && |key| == 16
      ensures value == Longest(Contents(), ByteBits(key), 129)
    {
      hide NodeOk, FreedOk, SlotOk, LeafOk, Pow2, And;
      ghost var K := ByteBits(key);
      ByteProbeStart();
      var i: nat, bit: nat := 0, 0x80;
      value := BTRIE_NULL;
      var node := root;
      ghost var d: nat := 0;
      assert K[..0] == [];
      while node != null
        invariant d <= 129 && (d <= 128 ==> node == Get(nodes, K[..d])) && (d == 129 ==> node == null)
        invariant (d < 128 ==> ByteProbe(i, bit, d)) && (d >= 128 ==> i == 16) && (d == 128 ==> bit == 0x80)
        invariant value == Longest(Contents(), K, d)
        decreases 129 - d
      {
        if node.value != BTRIE_NULL {
          value := node.value;
        }
        var byte := if i < 16 then key[i] else beyond;
        if d < 128 {
          ByteProbeTest(i, bit, d, key);
          ChildIs(K[..d], K[d]);
          assert K[..d + 1] == K[..d] + [K[d]];
          ByteProbeStep(i, bit, d);
        } else {
          NoChildAtBottom(K[..d]);
        }
        if And(byte, bit) != 0 {
          node := node.right;
        } else {
          node := node.left;
        }
        bit := bit / 2;
        d := d + 1;
        if bit == 0 {
          i := i + 1;
          bit := 0x80;
        }
      }
      LongestFrom(K, d, 129);
    }

    // ---------- structure of every reachable tree ----------

    /** Below every node but the root there is a value, so a stored prefix extends its path. */
    lemma ValuedBelow(q: Path) returns (p: Path)
      requires Valid() && q in nodes && q != []
      ensures p in Contents() && q <= p
      decreases depth - |q|
    {
      assert NodeOk(q) && LeafOk(q);
      if nodes[q].value != BTRIE_NULL {
        p := q;
      } else {
        var child := q + [nodes[q].left == null];
        assert NodeOk(child);
        hide NodeOk;
        p := ValuedBelow(child);
      }
    }

    lemma PrefixIn(p: Path, n: nat)
      requires TreeOk() && p in nodes && n <= |p|
      ensures p[..n] in nodes
      decreases |p|
    {
      if n < |p| {
        assert NodeOk(p) && Init(p)[..n] == p[..n];
        hide NodeOk;
        PrefixIn(Init(p), n);
      } else {
        assert p[..n] == p;
      }
    }

    /** The tree holds exactly the prefixes of stored prefixes, and the root. */
    lemma NodesArePrefixClosure()
      requires Valid()
      ensures nodes.Keys == PrefixClosure(Contents())
    {
      hide NodeOk, FreedOk, SlotOk, LeafOk;
      forall q | q in nodes ensures q in PrefixClosure(Contents()) {
        if q != [] {
          var p := ValuedBelow(q);
          assert q == p[..|q|];
        }
      }
      forall q | q in PrefixClosure(Contents()) ensures q in nodes {
        if q != [] {
          var p, n :| p in Contents() && 0 <= n <= |p| && q == p[..n];
          PrefixIn(p, n);
        }
      }
    }

    /** Parent links invert child links. */
    lemma LinksInvert(p: Path)
      requires Valid() && p in nodes
      ensures nodes[p].left != null ==> nodes[p].left.parent == nodes[p]
      ensures nodes[p].right != null ==> nodes[p].right.parent == nodes[p]
    {
      assert NodeOk(p);
      forall b: bool | p + [b] in nodes ensures nodes[p + [b]].parent == nodes[p] {
        assert NodeOk(p + [b]) && Init(p + [b]) == p;
      }
    }

    /** The free list has no repetition and shares no node with the tree. */
    lemma FreeListIsSeparate(i: nat, j: nat, p: Path)
      requires Valid() && i < |freed|
      ensures j < |freed| && i != j ==> freed[i] != freed[j]
      ensures p in nodes ==> nodes[p] != freed[i]
    {
      assert FreedOk(i);
      if j < |freed| {
        assert FreedOk(j);
      }
      if p in nodes {
        assert NodeOk(p);
      }
    }

    /** Every used slot of the pool is a tree node or a free node, and only one of them. */
    lemma PoolIsPartitioned()
      requires Valid()
      ensures Elements(pool[..start]) == nodes.Values + Elements(freed) && nodes.Values !! Elements(freed)
      ensures |nodes| + |freed| + size / NODE_SIZE == NODES_PER_PAGE * len
    {
      hide NodeOk, FreedOk, SlotOk, LeafOk;
      UsedAreTreeOrFree();
      UsedCount();
    }

    /** The used slots number the tree nodes and the free nodes. */
    lemma UsedCount()
      requires Inv() && detached == null
      ensures |nodes| + |freed| == start
    {
      hide NodeOk, FreedOk, SlotOk;
      UsedAreTreeOrFree();
      TreeSize();
      FreeSize();
      UsedSize();
    }

    lemma NodesFit()
      requires Rooted()
      ensures |nodes| <= start
    {
      hide NodeOk, FreedOk, SlotOk;
      UsedCount();
    }

    /** No page is taken before it is needed. */
    lemma PagesAreNeeded()
      requires Rooted()
      ensures len == Pages(start)
    {
      hide NodeOk, FreedOk, SlotOk, TreeOk, FreeListOk;
    }

    lemma UsedAreTreeOrFree()
      requires Inv() && detached == null
      ensures Elements(pool[..start]) == nodes.Values + Elements(freed) && nodes.Values !! Elements(freed)
    {
      hide LeafOk;
      forall n | n in Elements(pool[..start]) ensures n in nodes.Values + Elements(freed) {
        var i :| 0 <= i < start && pool[i] == n;
        assert SlotOk(i);
      }
      hide SlotOk;
      forall n | n in nodes.Values ensures n in Elements(pool[..start]) && n.place.InTree? {
        var p :| p in nodes && nodes[p] == n;
        assert NodeOk(p);
        assert pool[..start][n.slot] == n;
      }
      hide NodeOk;
      forall n | n in Elements(freed) ensures n in Elements(pool[..start]) && n.place.Free? {
        var i :| 0 <= i < |freed| && freed[i] == n;
        assert FreedOk(i);
        assert pool[..start][n.slot] == n;
      }
    }

    lemma TreeSize()
      requires Inv() && detached == null
      ensures |nodes.Values| == |nodes|
    {
      hide FreedOk, SlotOk, LeafOk;
      forall p, q | p in nodes && q in nodes && nodes[p] == nodes[q] ensures p == q {
        assert NodeOk(p) && NodeOk(q);
      }
      InjectiveSize(nodes);
    }

    lemma FreeSize()
      requires Inv() && detached == null
      ensures |Elements(freed)| == |freed|
    {
      hide NodeOk, SlotOk, LeafOk;
      forall i, j | 0 <= i < j < |freed| ensures freed[i] != freed[j] {
        assert FreedOk(i) && FreedOk(j);
      }
      DistinctSize(freed);
    }

    lemma UsedSize()
      requires Inv() && detached == null
      ensures |Elements(pool[..start])| == start
    {
      hide NodeOk, FreedOk, LeafOk;
      forall i, j | 0 <= i < j < start ensures pool[i] != pool[j] {
        assert SlotOk(i) && SlotOk(j);
      }
      DistinctSize(pool[..start]);
    }

    /** btrie_allocated: all bytes handed out by the pages are in nodes, free nodes or the page tail,
        and there are no more pages than the slots ever used need. */
    method Allocated() returns (bytes: nat)
      requires Valid()
      ensures bytes == NODE_SIZE * (|nodes| + |freed|) + size
      ensures bytes == PAGE_SIZE * Pages(start)
    {
      bytes := len * PAGE_SIZE;
      PoolIsPartitioned();
      PagesAreNeeded();
    }

    // ---------- counting ----------

    ghost function Below(path: Path): (r: set<Path>)
      reads this
    {
      set q | q in nodes && path <= q
    }

    lemma BelowSplits(path: Path)
      requires TreeOk() && path in nodes
      ensures |Below(path)| == 1 + |Below(path + [false])| + |Below(path + [true])|
    {
      var l, r := Below(path + [false]), Below(path + [true]);
      forall q | q in Below(path) ensures q == path || q in l || q in r {
        if q != path {
          if q[|path|] {
            assert path + [true] <= q;
          } else {
            assert path + [false] <= q;
          }
        }
      }
      assert Below(path) == {path} + l + r;
      forall q | q in l ensures q !in r {
        assert q[|path|] == false;
      }
      assert {path} !! l !! r;
    }

    lemma NothingBelow(path: Path)
      requires TreeOk() && path !in nodes
      ensures Below(path) == {}
    {
      forall q | q in nodes ensures !(path <= q) {
        if path <= q {
          assert q[..|path|] == path && q[..|q|] == q;
          AbsentBelow(q, |path|, |q|);
        }
      }
    }

    /** subtree_weight: the number of tree nodes at or below a node. */
    method SubtreeWeight(node: Node, ghost path: Path) returns (weight: nat)
      requires Valid() && path in nodes && node == nodes[path]
      ensures weight == |Below(path)|
      decreases depth - |path|
    {
      assert NodeOk(path);
      hide FreedOk, SlotOk, LeafOk, NodeOk;
      BelowSplits(path);
      weight := 1;
      if node.left != null {
        PathFits(path + [false]);
        var w := SubtreeWeight(node.left, path + [false]);
        weight := weight + w;
      } else {
        NothingBelow(path + [false]);
      }
      if node.right != null {
        PathFits(path + [true]);
        var w := SubtreeWeight(node.right, path + [true]);
        weight := weight + w;
      } else {
        NothingBelow(path + [true]);
      }
    }

    lemma PathFits(p: Path)
      requires TreeOk() && p in nodes
      ensures |p| <= depth
    {
      assert NodeOk(p);
    }

    /** btrie_count: the number of distinct prefixes of stored prefixes, the empty one included. */
    method Count() returns (n: nat)
      requires Valid()
      ensures n == |PrefixClosure(Contents())| == |nodes|
    {
      n := SubtreeWeight(root, []);
      assert Below([]) == nodes.Keys;
      NodesArePrefixClosure();
    }
  }

  // ---------- the abstract map of prefixes ----------

  /** The empty prefix can be deleted while something else is stored; otherwise the root has
      no child and the unlink loop follows its null parent. */
  ghost predicate DeleteIsSafe(m: map<Path, nat>, p: Path) {
    p == [] ==> exists q :: q in m && q != []
  }

  function Max(a: nat, b: nat): (r: nat) {
    if a < b then b else a
  }

  /** Pages that hold n nodes. */
  function Pages(n: nat): (r: nat) {
    (n + NODES_PER_PAGE - 1) / NODES_PER_PAGE
  }

  /** A new entry; writing the null value enters nothing. */
  ghost function Entered(m: map<Path, nat>, p: Path, value: nat): (r: map<Path, nat>) {
    if value == BTRIE_NULL then m else m[p := value]
  }

  /** Value of the longest stored prefix of K shorter than n bits, or BTRIE_NULL. */
  ghost function Longest(m: map<Path, nat>, K: Path, n: nat): (v: nat)
    requires n <= |K| + 1
  {
    if n == 0 then BTRIE_NULL
    else if K[..n - 1] in m then m[K[..n - 1]]
    else Longest(m, K, n - 1)
  }

  /** The longest stored prefix wins. */
  lemma {:induction false} LongestFound(m: map<Path, nat>, K: Path, n: nat, i: nat)
    requires i < n <= |K| + 1 && K[..i] in m
    requires forall j :: i < j < n ==> K[..j] !in m
    ensures Longest(m, K, n) == m[K[..i]]
  {
    if i < n - 1 {
      LongestFound(m, K, n - 1, i);
    }
  }

  /** Without a stored prefix the answer is BTRIE_NULL. */
  lemma {:induction false} LongestAbsent(m: map<Path, nat>, K: Path, n: nat)
    requires n <= |K| + 1 && forall j :: 0 <= j < n ==> K[..j] !in m
    ensures Longest(m, K, n) == BTRIE_NULL
  {
    if n > 0 {
      LongestAbsent(m, K, n - 1);
    }
  }

  /** The prefixes of the stored prefixes, and the empty prefix. */
  ghost function PrefixClosure(m: map<Path, nat>): (r: set<Path>) {
    {[]} + set p, n | p in m && 0 <= n <= |p| :: p[..n]
  }

  ghost function Elements<T>(s: seq<T>): (r: set<T>) {
    set x | x in s
  }

  lemma {:induction false} DistinctSize<T>(s: seq<T>)
    requires forall i, j :: 0 <= i < j < |s| ==> s[i] != s[j]
    ensures |Elements(s)| == |s|
  {
    if s != [] {
      var n := |s| - 1;
      DistinctSize(s[..n]);
      assert s == s[..n] + [s[n]];
      assert Elements(s) == Elements(s[..n]) + {s[n]};
      assert s[n] !in s[..n];
    }
  }

  lemma ValuesWithout<K, V>(m: map<K, V>, k: K)
    requires k in m
    ensures m.Values == (m - {k}).Values + {m[k]}
  {
    var rest := m - {k};
    forall v | v in m.Values
      ensures v in rest.Values + {m[k]}
    {
      var x :| x in m && m[x] == v;
      if x != k {
        assert x in rest && rest[x] == v;
      }
    }
    forall v | v in rest.Values
      ensures v in m.Values
    {
      var x :| x in rest && rest[x] == v;
      assert x in m && m[x] == v;
    }
  }

  lemma {:induction false} InjectiveSize<K, V>(m: map<K, V>)
    requires forall x, y :: x in m && y in m && m[x] == m[y] ==> x == y
    ensures |m.Values| == |m|
  {
    if m != map[] {
      var k :| k in m;
      var rest := m - {k};
      InjectiveSize(rest);
      ValuesWithout(m, k);
      assert m[k] !in rest.Values;
      assert m.Keys == rest.Keys + {k};
    }
  }

  lemma ChildOf(q: Path, path: Path, dir: bool)
    ensures forall b: bool :: q + [b] == path + [dir] <==> q == path && b == dir
  {
    forall b: bool ensures q + [b] == path + [dir] <==> q == path && b == dir {
      assert Init(q + [b]) == q && Last(q + [b]) == b;
      assert Init(path + [dir]) == path && Last(path + [dir]) == dir;
    }
  }
}
