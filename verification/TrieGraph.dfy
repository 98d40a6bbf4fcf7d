/**
 The shape of a patricia trie, as a value.

 A `Graph` records, for every node object, the links the node holds and the bit string (`path`) that all
 prefixes below it share. The invariant `WF` only relates a node to its neighbours; what it means for the
 whole trie (every matching prefix lies on the search path, the set of nodes is determined by the set of
 stored prefixes, and so on) is proved here once, away from the heap.
 */
module TrieGraph {
  import opened Wrappers
  import opened AddressBits

  /** patricia_node_t */
  class Node {
    var bit: nat
    var prefix: Option<Prefix>
    var l: Node?
    var r: Node?
    var parent: Node?
    var data: object?
    /** The first `bit` bits of every prefix stored at or below this node. */
    ghost var path: Bits

    constructor (bit: nat, prefix: Option<Prefix>, parent: Node?, ghost path: Bits)
      ensures this.bit == bit && this.prefix == prefix && this.parent == parent && this.path == path
      ensures this.l == null && this.r == null && this.data == null
    {
      this.bit, this.prefix, this.parent, this.path := bit, prefix, parent, path;
      this.l, this.r, this.data := null, null, null;
    }

    constructor Glue(bit: nat, l: Node, r: Node, parent: Node?, ghost path: Bits)
      ensures this.bit == bit && this.prefix == None && this.parent == parent && this.path == path
      ensures this.l == l && this.r == r && this.data == null
    {
      this.bit, this.prefix, this.parent, this.path := bit, None, parent, path;
      this.l, this.r, this.data := l, r, null;
    }
  }

  /** prefix_t: an address of which only the first `bitlen` bits count. */
  datatype Prefix = Prefix(addr: Address, bitlen: nat)

  /** The bits a prefix stands for. */
  function Key(p: Prefix): (k: Bits)
    requires p.bitlen <= ADDR_BITS
    ensures |k| == p.bitlen
  {
    Expand(p.addr)[..p.bitlen]
  }

  /** All fields of a node. */
  datatype Links = Links(path: Bits, bit: nat, prefix: Option<Prefix>, data: object?, l: Node?, r: Node?, parent: Node?)

  type Graph = map<Node, Links>

  /** `c` continues `p` with the bit `side`. */
  predicate Extends(c: Bits, p: Bits, side: bool) {
    |p| < |c| && c[..|p|] == p && c[|p|] == side
  }

  lemma ExtendsShorter(c: Bits, mid: Bits, p: Bits, side: bool)
    requires Extends(c, p, side) && |p| < |mid| && mid <= c
    ensures Extends(mid, p, side)
  {
    assert mid[..|p|] == c[..|p|];
  }

  lemma ExtendsLonger(c: Bits, mid: Bits, p: Bits, side: bool)
    requires Extends(mid, p, side) && mid <= c
    ensures Extends(c, p, side)
  {
    assert c[..|p|] == mid[..|p|];
  }

  /** A node tests the bit behind its path, holds a prefix only for exactly this path, and has data only
      with a prefix. */
  predicate ContentOk(x: Links) {
    && x.bit == |x.path|
    && (x.prefix.Some? ==> x.prefix.value.bitlen == x.bit <= ADDR_BITS && Key(x.prefix.value) == x.path)
    && (x.prefix.None? ==> x.data == null)
  }

  ghost predicate NodeOk(g: Graph, n: Node, maxbits: nat)
    requires n in g
  {
    var x := g[n];
    && ContentOk(x) && |x.path| <= maxbits
    && (x.l != null ==> x.l in g && g[x.l].parent == n && Extends(g[x.l].path, x.path, false))
    && (x.r != null ==> x.r in g && g[x.r].parent == n && Extends(g[x.r].path, x.path, true))
    && (!x.prefix.Some? ==> x.l != null && x.r != null)
    && (x.parent != null ==> x.parent in g && (g[x.parent].l == n || g[x.parent].r == n))
  }

  /** The trie invariant: bit indices grow downwards, children lie on the side of their own bit, glue nodes
      have two children, parent and child links are inverse, and only the head has no parent. */
  ghost predicate WF(g: Graph, head: Node?, maxbits: nat) {
    && (head == null ==> g == map[])
    && (head != null ==> head in g && g[head].parent == null)
    && (forall n {:trigger NodeOk(g, n, maxbits)} :: n in g ==> NodeOk(g, n, maxbits))
    && (forall n {:trigger g[n].parent} :: n in g && g[n].parent == null ==> n == head)
  }

  lemma ParentShorter(g: Graph, head: Node?, maxbits: nat, n: Node)
    requires WF(g, head, maxbits) && n in g && g[n].parent != null
    ensures g[n].parent in g
    ensures Extends(g[n].path, g[g[n].parent].path, g[g[n].parent].r == n)
    ensures if g[g[n].parent].r == n then g[g[n].parent].l != n else g[g[n].parent].l == n
  {
    assert NodeOk(g, n, maxbits);
    assert NodeOk(g, g[n].parent, maxbits);
  }

  /** `n` is `x` or lies below it. */
  ghost predicate Below(g: Graph, head: Node?, maxbits: nat, n: Node, x: Node)
    requires WF(g, head, maxbits) && n in g
    decreases |g[n].path|
  {
    n == x
    || (g[n].parent != null
        && (ParentShorter(g, head, maxbits, n); Below(g, head, maxbits, g[n].parent, x)))
  }

  lemma {:induction false} BelowHead(g: Graph, head: Node?, maxbits: nat, n: Node)
    requires WF(g, head, maxbits) && n in g
    ensures head != null && Below(g, head, maxbits, n, head)
    decreases |g[n].path|
  {
    if g[n].parent != null {
      ParentShorter(g, head, maxbits, n);
      BelowHead(g, head, maxbits, g[n].parent);
    }
  }

  /** Labels grow downwards. */
  lemma {:induction false} BelowPath(g: Graph, head: Node?, maxbits: nat, n: Node, x: Node)
    requires WF(g, head, maxbits) && n in g && Below(g, head, maxbits, n, x)
    ensures x in g && g[x].path <= g[n].path
    ensures n != x ==> |g[x].path| < |g[n].path|
    decreases |g[n].path|
  {
    if n != x {
      ParentShorter(g, head, maxbits, n);
      BelowPath(g, head, maxbits, g[n].parent, x);
    }
  }

  lemma {:induction false} BelowTrans(g: Graph, head: Node?, maxbits: nat, n: Node, x: Node, y: Node)
    requires WF(g, head, maxbits) && n in g && Below(g, head, maxbits, n, x) && x in g && Below(g, head, maxbits, x, y)
    ensures Below(g, head, maxbits, n, y)
    decreases |g[n].path|
  {
    if n != x {
      ParentShorter(g, head, maxbits, n);
      BelowTrans(g, head, maxbits, g[n].parent, x, y);
    }
  }

  function Child(g: Graph, x: Node, side: bool): Node?
    requires x in g
  {
    if side then g[x].r else g[x].l
  }

  /** Whatever lies strictly below `x` lies below the child on the side of its own bit. */
  lemma {:induction false} BelowChild(g: Graph, head: Node?, maxbits: nat, n: Node, x: Node)
    requires WF(g, head, maxbits) && n in g && Below(g, head, maxbits, n, x) && n != x
    ensures x in g && |g[x].path| < |g[n].path|
    ensures var c := Child(g, x, g[n].path[|g[x].path|]);
            c != null && c in g && Below(g, head, maxbits, n, c)
    decreases |g[n].path|
  {
    BelowPath(g, head, maxbits, n, x);
    ParentShorter(g, head, maxbits, n);
    var p := g[n].parent;
    if p == x {
      assert Below(g, head, maxbits, n, n);
    } else {
      BelowChild(g, head, maxbits, p, x);
      assert g[n].path[|g[x].path|] == g[p].path[|g[x].path|];
    }
  }

  /** The only node below `x` that is no longer than `x` is `x`. */
  lemma BelowSameLength(g: Graph, head: Node?, maxbits: nat, n: Node, x: Node)
    requires WF(g, head, maxbits) && n in g && Below(g, head, maxbits, n, x)
    requires x in g && |g[n].path| <= |g[x].path|
    ensures n == x
  {
    BelowPath(g, head, maxbits, n, x);
  }

  /** Two nodes whose labels lie on one path are one above the other; in particular labels are unique. */
  lemma {:induction false} SamePath(g: Graph, head: Node?, maxbits: nat, n: Node, m: Node, top: Node)
    requires WF(g, head, maxbits) && n in g && m in g && top in g
    requires Below(g, head, maxbits, n, top) && Below(g, head, maxbits, m, top)
    requires g[m].path <= g[n].path
    ensures Below(g, head, maxbits, n, m)
    decreases maxbits - |g[top].path|
  {
    assert NodeOk(g, top, maxbits);
    if m != top {
      BelowPath(g, head, maxbits, m, top);
      BelowPath(g, head, maxbits, n, top);
      BelowChild(g, head, maxbits, m, top);
      BelowChild(g, head, maxbits, n, top);
      var c := Child(g, top, g[m].path[|g[top].path|]);
      assert NodeOk(g, c, maxbits);
      SamePath(g, head, maxbits, n, m, c);
    }
  }

  lemma OnPath(g: Graph, head: Node?, maxbits: nat, n: Node, m: Node)
    requires WF(g, head, maxbits) && n in g && m in g && g[m].path <= g[n].path
    ensures Below(g, head, maxbits, n, m)
  {
    BelowHead(g, head, maxbits, n);
    BelowHead(g, head, maxbits, m);
    SamePath(g, head, maxbits, n, m, head);
  }

  lemma PathsUnique(g: Graph, head: Node?, maxbits: nat, n: Node, m: Node)
    requires WF(g, head, maxbits) && n in g && m in g && g[n].path == g[m].path
    ensures n == m
  {
    OnPath(g, head, maxbits, n, m);
    BelowSameLength(g, head, maxbits, n, m);
  }

  /** `n` is the topmost node whose path has at least `d` bits, on its own branch. */
  ghost predicate Topmost(g: Graph, n: Node, d: nat)
    requires n in g
  {
    d <= |g[n].path| && (g[n].parent == null || (g[n].parent in g && |g[g[n].parent].path| < d))
  }

  /** Everything that shares the first `d` bits with a topmost node lies below it. */
  lemma TopmostCovers(g: Graph, head: Node?, maxbits: nat, n: Node, d: nat, m: Node)
    requires WF(g, head, maxbits) && n in g && m in g && Topmost(g, n, d)
    requires d <= |g[m].path| && g[m].path[..d] == g[n].path[..d]
    ensures Below(g, head, maxbits, m, n)
  {
    if g[n].parent == null {
      BelowHead(g, head, maxbits, m);
    } else {
      var p := g[n].parent;
      ParentShorter(g, head, maxbits, n);
      var k := |g[p].path|;
      assert g[m].path[..k] == g[m].path[..d][..k] == g[n].path[..d][..k] == g[p].path;
      OnPath(g, head, maxbits, m, p);
      BelowChild(g, head, maxbits, m, p);
      assert g[m].path[k] == g[m].path[..d][k] == g[n].path[..d][k];
    }
  }

  // ---- the represented map -------------------------------------------------------------------------

  /** `m` sends every stored prefix to the node that holds it. */
  ghost predicate Represents(g: Graph, m: map<Bits, Node>) {
    && (forall k :: k in m ==> m[k] in g && g[m[k]].prefix.Some? && g[m[k]].path == k)
    && (forall n {:trigger g[n].prefix} :: n in g && g[n].prefix.Some? ==> g[n].path in m && m[g[n].path] == n)
  }

  /** All nodes of `g` are still there, with their data. */
  ghost predicate DataKept(g: Graph, h: Graph) {
    forall n {:trigger h[n]} {:trigger n in h} :: n in g ==> n in h && h[n].data == g[n].data
  }

  ghost predicate NoPath(g: Graph, k: Bits) {
    forall n :: n in g ==> g[n].path != k
  }
}
