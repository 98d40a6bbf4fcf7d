/**
 The four shapes of an insertion and the three shapes of a removal, as functions on trie graphs, and the proof
 that each keeps the trie invariant and changes the represented map in exactly one place.
 */
module TrieUpdate {
  import opened Wrappers
  import opened AddressBits
  import opened TrieGraph

  // ---- insertion shapes ----------------------------------------------------------------------------

  function WithChild(x: Links, side: bool, c: Node?): Links {
    if side then x.(r := c) else x.(l := c)
  }

  /** Let the parent of `n` (if any) point to `to` where it pointed to `n`. */
  function Redirect(g: Graph, n: Node, to: Node?): Graph
    requires n in g && (g[n].parent != null ==> g[n].parent in g)
  {
    var p := g[n].parent;
    if p == null then g else g[p := WithChild(g[p], g[p].r == n, to)]
  }

  function NewHead(g: Graph, head: Node?, n: Node, to: Node?): Node?
    requires n in g
  {
    if g[n].parent == null then to else head
  }

  /** A new node for `p`, without children. */
  function NewLeaf(p: Prefix, parent: Node?): Links
    requires p.bitlen <= ADDR_BITS
  {
    Links(Key(p), p.bitlen, Some(p), null, null, null, parent)
  }

  /** "glue mod": a prefix moves into an existing glue node. */
  function Fill(g: Graph, n: Node, p: Prefix): Graph
    requires n in g
  {
    g[n := g[n].(prefix := Some(p))]
  }

  lemma FillWF(g: Graph, head: Node?, maxbits: nat, n: Node, p: Prefix)
    requires WF(g, head, maxbits) && n in g && p.bitlen <= ADDR_BITS && Key(p) == g[n].path
    ensures WF(Fill(g, n, p), head, maxbits)
  {
    var h := Fill(g, n, p);
    forall x | x in h
      ensures NodeOk(h, x, maxbits)
    {
      assert NodeOk(g, x, maxbits);
    }
  }

  lemma GlueNotInMap(g: Graph, head: Node?, maxbits: nat, m: map<Bits, Node>, n: Node)
    requires WF(g, head, maxbits) && n in g && !g[n].prefix.Some? && Represents(g, m)
    ensures g[n].path !in m
  {
    if g[n].path in m {
      PathsUnique(g, head, maxbits, n, m[g[n].path]);
    }
  }

  lemma FillMap(g: Graph, m: map<Bits, Node>, n: Node, p: Prefix)
    requires n in g && g[n].path !in m && Represents(g, m)
    ensures Represents(Fill(g, n, p), m[g[n].path := n])
    ensures DataKept(g, Fill(g, n, p))
  {
  }

  /** PATRICIA_DATA_SET */
  function SetData(g: Graph, n: Node, d: object?): Graph
    requires n in g
  {
    g[n := g[n].(data := d)]
  }

  lemma SetDataKeeps(g: Graph, head: Node?, maxbits: nat, m: map<Bits, Node>, n: Node, d: object?)
    requires WF(g, head, maxbits) && n in g && g[n].prefix.Some? && Represents(g, m)
    ensures WF(SetData(g, n, d), head, maxbits) && Represents(SetData(g, n, d), m)
  {
    var h := SetData(g, n, d);
    forall x | x in h
      ensures NodeOk(h, x, maxbits)
    {
      assert NodeOk(g, x, maxbits);
    }
  }

  /** "child": a new leaf `c` under `n`. */
  function AddChild(g: Graph, n: Node, c: Node, p: Prefix): Graph
    requires n in g && |g[n].path| < p.bitlen <= ADDR_BITS
  {
    g[n := WithChild(g[n], Key(p)[|g[n].path|], c)][c := NewLeaf(p, n)]
  }

  lemma AddChildOthers(g: Graph, h: Graph, head: Node?, maxbits: nat, n: Node, c: Node, side: bool, x: Node)
    requires WF(g, head, maxbits) && n in g && c !in g && x in g && x != n
    requires g.Keys <= h.Keys && (forall y {:trigger h[y]} :: y in g && y != n ==> h[y] == g[y])
    requires h[n] == WithChild(g[n], side, c) && Child(g, n, side) == null
    ensures NodeOk(h, x, maxbits)
  {
    hide ContentOk, Extends;
    assert NodeOk(g, x, maxbits);
  }

  lemma AddChildWF(g: Graph, head: Node?, maxbits: nat, n: Node, c: Node, p: Prefix)
    requires WF(g, head, maxbits) && n in g && c !in g
    requires p.bitlen <= ADDR_BITS && g[n].path < Key(p) && p.bitlen <= maxbits
    requires Child(g, n, Key(p)[|g[n].path|]) == null && g[n].prefix.Some?
    ensures WF(AddChild(g, n, c, p), head, maxbits)
  {
    var h := AddChild(g, n, c, p);
    var side := Key(p)[|g[n].path|];
    assert NodeOk(g, n, maxbits);
    assert NodeOk(h, n, maxbits);
    assert NodeOk(h, c, maxbits);
    forall x | x in h
      ensures NodeOk(h, x, maxbits)
    {
      if x != c && x != n {
        AddChildOthers(g, h, head, maxbits, n, c, side, x);
      }
    }
  }

  lemma AddChildMap(g: Graph, m: map<Bits, Node>, n: Node, c: Node, p: Prefix)
    requires n in g && c !in g && p.bitlen <= ADDR_BITS && g[n].path < Key(p) && NoPath(g, Key(p)) && Represents(g, m)
    ensures Key(p) !in m && Represents(AddChild(g, n, c, p), m[Key(p) := c])
    ensures DataKept(g, AddChild(g, n, c, p))
  {
  }

  /** "parent": a new node `c` between `n` and its parent. */
  function AddParent(g: Graph, n: Node, c: Node, p: Prefix): Graph
    requires n in g && (g[n].parent != null ==> g[n].parent in g)
    requires p.bitlen < |g[n].path| && p.bitlen <= ADDR_BITS
  {
    Redirect(g, n, c)[n := g[n].(parent := c)]
                     [c := WithChild(NewLeaf(p, g[n].parent), g[n].path[p.bitlen], n)]
  }

  /** `h` is `g` with the link between `n` and its parent (if any) split by the new node `c`. */
  ghost predicate SplitLink(g: Graph, h: Graph, n: Node, c: Node) {
    && n in g && c !in g && c in h && g.Keys <= h.Keys
    && (forall y {:trigger h[y]} :: y in g && y != n && y != g[n].parent ==> h[y] == g[y])
    && h[n] == g[n].(parent := c)
    && h[c].parent == g[n].parent
    && (g[n].parent != null ==>
          g[n].parent in g && h[g[n].parent] == WithChild(g[g[n].parent], g[g[n].parent].r == n, c))
  }

  lemma SplitLinkOthers(g: Graph, h: Graph, head: Node?, maxbits: nat, n: Node, c: Node, x: Node)
    requires WF(g, head, maxbits) && SplitLink(g, h, n, c) && x in g && x != n && x != g[n].parent
    ensures NodeOk(h, x, maxbits)
  {
    hide ContentOk, Extends;
    assert NodeOk(g, x, maxbits) && NodeOk(g, n, maxbits);
    if g[n].parent != null {
      assert NodeOk(g, g[n].parent, maxbits);
    }
  }

  lemma SplitLinkParent(g: Graph, h: Graph, head: Node?, maxbits: nat, n: Node, c: Node)
    requires WF(g, head, maxbits) && SplitLink(g, h, n, c) && g[n].parent != null
    requires |g[g[n].parent].path| < |h[c].path| && h[c].path <= g[n].path
    ensures NodeOk(h, g[n].parent, maxbits)
  {
    var p := g[n].parent;
    assert NodeOk(g, p, maxbits);
    ParentShorter(g, head, maxbits, n);
    ExtendsShorter(g[n].path, h[c].path, g[p].path, g[p].r == n);
    if g[p].parent != null {
      ParentShorter(g, head, maxbits, p);
    }
  }

  /** The invariant survives when the new nodes and `n` itself are in order. */
  lemma SplitLinkWF(g: Graph, h: Graph, head: Node?, maxbits: nat, n: Node, c: Node, added: set<Node>)
    requires WF(g, head, maxbits) && SplitLink(g, h, n, c)
    requires h.Keys == g.Keys + added && c in added && added !! g.Keys
    requires g[n].parent != null ==> |g[g[n].parent].path| < |h[c].path|
    requires h[c].path <= g[n].path
    requires forall x {:trigger NodeOk(h, x, maxbits)} :: x in added ==> NodeOk(h, x, maxbits)
    requires forall x {:trigger h[x]} :: x in added && x != c ==> h[x].parent == c
    requires NodeOk(h, n, maxbits)
    ensures WF(h, NewHead(g, head, n, c), maxbits)
  {
    hide ContentOk, Extends;
    if g[n].parent != null {
      SplitLinkParent(g, h, head, maxbits, n, c);
    }
    forall x | x in h
      ensures NodeOk(h, x, maxbits)
    {
      if x !in added && x != n && x != g[n].parent {
        SplitLinkOthers(g, h, head, maxbits, n, c, x);
      }
    }
  }

  lemma AddParentSplits(g: Graph, n: Node, c: Node, p: Prefix)
    requires n in g && c !in g && g[n].parent != n
    requires (g[n].parent != null ==> g[n].parent in g) && p.bitlen < |g[n].path| && p.bitlen <= ADDR_BITS
    ensures SplitLink(g, AddParent(g, n, c, p), n, c)
    ensures AddParent(g, n, c, p).Keys == g.Keys + {c}
  {
  }

  lemma AddParentWF(g: Graph, head: Node?, maxbits: nat, n: Node, c: Node, p: Prefix)
    requires WF(g, head, maxbits) && n in g && c !in g
    requires p.bitlen <= ADDR_BITS && Key(p) < g[n].path && Topmost(g, n, p.bitlen)
    ensures WF(AddParent(g, n, c, p), NewHead(g, head, n, c), maxbits)
  {
    var h := AddParent(g, n, c, p);
    assert NodeOk(g, n, maxbits);
    AddParentSplits(g, n, c, p);
    assert NodeOk(h, c, maxbits);
    assert NodeOk(h, n, maxbits);
    SplitLinkWF(g, h, head, maxbits, n, c, {c});
  }

  lemma AddParentMap(g: Graph, m: map<Bits, Node>, n: Node, c: Node, p: Prefix)
    requires n in g && c !in g && (g[n].parent != null ==> g[n].parent in g)
    requires p.bitlen <= ADDR_BITS && Key(p) < g[n].path && NoPath(g, Key(p)) && Represents(g, m)
    ensures Key(p) !in m && Represents(AddParent(g, n, c, p), m[Key(p) := c])
    ensures DataKept(g, AddParent(g, n, c, p))
  {
  }

  /** "glue+node": a new glue node above `n` with `n` on one side and the new leaf `c` on the other. */
  function AddGlue(g: Graph, n: Node, glue: Node, c: Node, d: nat, p: Prefix): Graph
    requires n in g && (g[n].parent != null ==> g[n].parent in g)
    requires d < p.bitlen <= ADDR_BITS
  {
    Redirect(g, n, glue)[n := g[n].(parent := glue)]
                        [glue := NewGlue(Key(p)[..d], Key(p)[d], c, n, g[n].parent)]
                        [c := NewLeaf(p, glue)]
  }

  /** A new glue node with `c` on the side `side` and `n` on the other. */
  function NewGlue(path: Bits, side: bool, c: Node, n: Node, parent: Node?): Links {
    Links(path, |path|, None, null, if side then n else c, if side then c else n, parent)
  }

  lemma AddGlueSplits(g: Graph, n: Node, glue: Node, c: Node, d: nat, p: Prefix)
    requires n in g && c !in g && glue !in g && glue != c && g[n].parent != n
    requires (g[n].parent != null ==> g[n].parent in g) && d < p.bitlen <= ADDR_BITS
    ensures SplitLink(g, AddGlue(g, n, glue, c, d, p), n, glue)
    ensures AddGlue(g, n, glue, c, d, p).Keys == g.Keys + {c, glue}
  {
  }

  lemma AddGlueWF(g: Graph, head: Node?, maxbits: nat, n: Node, glue: Node, c: Node, d: nat, p: Prefix)
    requires WF(g, head, maxbits) && n in g && c !in g && glue !in g && glue != c
    requires d < p.bitlen <= maxbits && p.bitlen <= ADDR_BITS && d < |g[n].path|
    requires Key(p)[..d] == g[n].path[..d] && Key(p)[d] != g[n].path[d]
    requires Topmost(g, n, d)
    ensures WF(AddGlue(g, n, glue, c, d, p), NewHead(g, head, n, glue), maxbits)
  {
    var h := AddGlue(g, n, glue, c, d, p);
    assert NodeOk(g, n, maxbits);
    assert Key(p)[..d] <= g[n].path;
    AddGlueSplits(g, n, glue, c, d, p);
    assert NodeOk(h, c, maxbits);
    assert NodeOk(h, glue, maxbits);
    assert NodeOk(h, n, maxbits);
    SplitLinkWF(g, h, head, maxbits, n, glue, {c, glue});
  }

  lemma AddGlueMap(g: Graph, m: map<Bits, Node>, n: Node, glue: Node, c: Node, d: nat, p: Prefix)
    requires n in g && c !in g && glue !in g && glue != c && (g[n].parent != null ==> g[n].parent in g)
    requires d < p.bitlen <= ADDR_BITS && NoPath(g, Key(p)) && Represents(g, m)
    ensures Key(p) !in m && Represents(AddGlue(g, n, glue, c, d, p), m[Key(p) := c])
    ensures DataKept(g, AddGlue(g, n, glue, c, d, p))
  {
  }

  // ---- removal shapes ------------------------------------------------------------------------------

  /** Two children: the node stays as glue. */
  function Empty(g: Graph, n: Node): Graph
    requires n in g
  {
    g[n := g[n].(prefix := None, data := null)]
  }

  lemma EmptyWF(g: Graph, head: Node?, maxbits: nat, n: Node)
    requires WF(g, head, maxbits) && n in g && g[n].l != null && g[n].r != null
    ensures WF(Empty(g, n), head, maxbits)
  {
    var h := Empty(g, n);
    forall x | x in h
      ensures NodeOk(h, x, maxbits)
    {
      assert NodeOk(g, x, maxbits);
    }
  }

  lemma EmptyMap(g: Graph, m: map<Bits, Node>, n: Node)
    requires n in g && g[n].prefix.Some? && Represents(g, m)
    ensures Represents(Empty(g, n), m - {g[n].path})
  {
  }

  /** Take `n` out and let its only child `c` (or nothing) take its place. */
  function Splice(g: Graph, n: Node, c: Node?): Graph
    requires n in g && (g[n].parent != null ==> g[n].parent in g)
    requires c != null ==> c in g
  {
    var h := Redirect(g, n, c);
    (if c == null then h else h[c := g[c].(parent := g[n].parent)]) - {n}
  }

  /** `h` is `g` without the nodes in `gone`: `n` and possibly a leaf below it. The parent of `n` (if any)
      now holds `c`, which hung below `n`. */
  ghost predicate JoinLink(g: Graph, h: Graph, n: Node, c: Node?, gone: set<Node>) {
    && n in g && n in gone && h.Keys == g.Keys - gone
    && (forall y {:trigger h[y]} :: y in h && y != c && y != g[n].parent ==> h[y] == g[y])
    && (forall y :: y in gone ==> y in g && (y == n || g[y].parent == n))
    && (g[n].l != null ==> g[n].l == c || g[n].l in gone)
    && (g[n].r != null ==> g[n].r == c || g[n].r in gone)
    && (forall y :: y in gone && y != n ==> g[y].l == null && g[y].r == null)
    && (c != null ==> c in h && g[c].parent == n && h[c] == g[c].(parent := g[n].parent))
    && (g[n].parent != null ==>
          g[n].parent in h && h[g[n].parent] == WithChild(g[g[n].parent], g[g[n].parent].r == n, c)
          && (c == null ==> g[g[n].parent].prefix.Some?))
  }

  lemma JoinLinkOthers(g: Graph, h: Graph, head: Node?, maxbits: nat, n: Node, c: Node?, gone: set<Node>, x: Node)
    requires WF(g, head, maxbits) && JoinLink(g, h, n, c, gone) && x in h && x != c && x != g[n].parent
    ensures NodeOk(h, x, maxbits)
  {
    hide ContentOk, Extends;
    assert NodeOk(g, x, maxbits) && NodeOk(g, n, maxbits);
    if g[x].parent != null {
      assert NodeOk(g, g[x].parent, maxbits);
    }
    if g[n].parent != null {
      assert NodeOk(g, g[n].parent, maxbits);
    }
  }

  lemma JoinLinkParent(g: Graph, h: Graph, head: Node?, maxbits: nat, n: Node, c: Node?, gone: set<Node>)
    requires WF(g, head, maxbits) && JoinLink(g, h, n, c, gone) && g[n].parent != null
    ensures NodeOk(h, g[n].parent, maxbits)
  {
    var p := g[n].parent;
    assert NodeOk(g, p, maxbits);
    ParentShorter(g, head, maxbits, n);
    if c != null {
      ParentShorter(g, head, maxbits, c);
      ExtendsLonger(g[c].path, g[n].path, g[p].path, g[p].r == n);
    }
    var pp := g[p].parent;
    if pp != null {
      ParentShorter(g, head, maxbits, p);
      if pp in gone && pp != n {
        ParentShorter(g, head, maxbits, pp);
      }
    }
  }

  lemma JoinLinkChild(g: Graph, h: Graph, head: Node?, maxbits: nat, n: Node, c: Node, gone: set<Node>)
    requires WF(g, head, maxbits) && JoinLink(g, h, n, c, gone)
    ensures NodeOk(h, c, maxbits)
  {
    assert NodeOk(g, c, maxbits);
    ParentShorter(g, head, maxbits, c);
    if g[n].parent != null {
      ParentShorter(g, head, maxbits, n);
    }
  }

  lemma JoinLinkWF(g: Graph, h: Graph, head: Node?, maxbits: nat, n: Node, c: Node?, gone: set<Node>)
    requires WF(g, head, maxbits) && JoinLink(g, h, n, c, gone)
    requires NewHead(g, head, n, c) == null ==> h == map[]
    ensures WF(h, NewHead(g, head, n, c), maxbits)
  {
    hide ContentOk, Extends;
    if g[n].parent != null {
      JoinLinkParent(g, h, head, maxbits, n, c, gone);
    }
    if c != null {
      JoinLinkChild(g, h, head, maxbits, n, c, gone);
    }
    forall x | x in h
      ensures NodeOk(h, x, maxbits)
    {
      if x != c && x != g[n].parent {
        JoinLinkOthers(g, h, head, maxbits, n, c, gone, x);
      }
    }
  }

  lemma SpliceWF(g: Graph, head: Node?, maxbits: nat, n: Node, c: Node?)
    requires WF(g, head, maxbits) && n in g && (g[n].parent != null ==> g[n].parent in g)
    requires (g[n].l == null && g[n].r == c) || (g[n].r == null && g[n].l == c)
    requires c != null ==> c in g
    requires c == null && g[n].parent != null ==> g[g[n].parent].prefix.Some?
    ensures WF(Splice(g, n, c), NewHead(g, head, n, c), maxbits)
  {
    assert NodeOk(g, n, maxbits);
    var h := Splice(g, n, c);
    if g[n].parent != null {
      ParentShorter(g, head, maxbits, n);
    } else if c == null {
      OnlyNode(g, head, maxbits, n);
    }
    assert JoinLink(g, h, n, c, {n});
    JoinLinkWF(g, h, head, maxbits, n, c, {n});
  }

  lemma SpliceMap(g: Graph, m: map<Bits, Node>, n: Node, c: Node?)
    requires n in g && g[n].prefix.Some? && (g[n].parent != null ==> g[n].parent in g)
    requires (c != null ==> c in g && c != n) && Represents(g, m)
    ensures Represents(Splice(g, n, c), m - {g[n].path})
  {
  }

  lemma OnlyNode(g: Graph, head: Node?, maxbits: nat, n: Node)
    requires WF(g, head, maxbits) && n in g && g[n].parent == null && g[n].l == null && g[n].r == null
    ensures g - {n} == map[]
  {
    forall x | x in g
      ensures x == n
    {
      BelowHead(g, head, maxbits, x);
      if x != n {
        BelowChild(g, head, maxbits, x, n);
      }
    }
  }

  /** A leaf under a glue node: both go, and the sibling takes the glue node's place. */
  function DropLeafAndGlue(g: Graph, n: Node, glue: Node, sib: Node): Graph
    requires glue in g && (g[glue].parent != null ==> g[glue].parent in g) && sib in g
  {
    Redirect(g, glue, sib)[sib := g[sib].(parent := g[glue].parent)] - {n, glue}
  }

  lemma DropLeafAndGlueWF(g: Graph, head: Node?, maxbits: nat, n: Node, glue: Node, sib: Node)
    requires WF(g, head, maxbits) && n in g && g[n].l == null && g[n].r == null
    requires g[n].parent == glue && glue in g && !g[glue].prefix.Some?
    requires sib == (if g[glue].r == n then g[glue].l else g[glue].r)
    requires sib in g && (g[glue].parent != null ==> g[glue].parent in g)
    ensures WF(DropLeafAndGlue(g, n, glue, sib), NewHead(g, head, glue, sib), maxbits)
  {
    assert NodeOk(g, n, maxbits) && NodeOk(g, glue, maxbits);
    ParentShorter(g, head, maxbits, n);
    ParentShorter(g, head, maxbits, sib);
    var h := DropLeafAndGlue(g, n, glue, sib);
    if g[glue].parent != null {
      ParentShorter(g, head, maxbits, glue);
    }
    assert JoinLink(g, h, glue, sib, {n, glue});
    JoinLinkWF(g, h, head, maxbits, glue, sib, {n, glue});
  }

  lemma DropLeafAndGlueMap(g: Graph, m: map<Bits, Node>, n: Node, glue: Node, sib: Node)
    requires n in g && g[n].prefix.Some? && glue in g && !g[glue].prefix.Some? && sib in g && sib != n && sib != glue
    requires (g[glue].parent != null ==> g[glue].parent in g) && Represents(g, m)
    ensures Represents(DropLeafAndGlue(g, n, glue, sib), m - {g[n].path})
  {
  }

  // ---- where an insertion takes place --------------------------------------------------------------

  /** The descent turned towards `q` at every node above `s`. */
  ghost predicate Directed(g: Graph, head: Node?, maxbits: nat, q: Bits, s: Node)
    requires WF(g, head, maxbits) && s in g
  {
    forall x {:trigger Below(g, head, maxbits, s, x)} :: x in g && x != s && Below(g, head, maxbits, s, x) ==>
      |g[x].path| < |g[s].path| && |g[x].path| < |q| && g[s].path[|g[x].path|] == q[|g[x].path|]
  }

  lemma DirectedHead(g: Graph, head: Node, maxbits: nat, q: Bits)
    requires WF(g, head, maxbits)
    ensures Directed(g, head, maxbits, q, head)
  {
  }

  lemma DirectedStep(g: Graph, head: Node?, maxbits: nat, q: Bits, s: Node)
    requires WF(g, head, maxbits) && s in g && Directed(g, head, maxbits, q, s) && |g[s].path| < |q|
    requires Child(g, s, q[|g[s].path|]) != null
    ensures Child(g, s, q[|g[s].path|]) in g && Directed(g, head, maxbits, q, Child(g, s, q[|g[s].path|]))
  {
    var c := Child(g, s, q[|g[s].path|]);
    assert NodeOk(g, s, maxbits);
    forall x | x in g && x != c && Below(g, head, maxbits, c, x)
      ensures |g[x].path| < |g[c].path| && |g[x].path| < |q| && g[c].path[|g[x].path|] == q[|g[x].path|]
    {
      assert Below(g, head, maxbits, s, x);
      if x != s {
        assert g[c].path[|g[x].path|] == g[s].path[|g[x].path|];
      }
    }
  }

  /** Where the climb ends: the four insertion shapes of patricia_lookup and nothing else. */
  ghost predicate ClimbEnd(g: Graph, q: Bits, bitlen: nat, n: Node, d: nat)
    requires n in g
  {
    && d <= bitlen <= |q| && Topmost(g, n, d)
    && g[n].path[..d] == q[..d]
    && (|g[n].path| == d < bitlen ==> g[n].prefix.Some? && Child(g, n, q[d]) == null)
    && (d < |g[n].path| && d < bitlen ==> g[n].path[d] != q[d])
  }

  lemma ClimbEnds(g: Graph, head: Node?, maxbits: nat, q: Bits, bitlen: nat, s: Node, n: Node, d: nat)
    requires WF(g, head, maxbits) && s in g && n in g && g[s].prefix.Some? && bitlen <= |q|
    requires |g[s].path| < bitlen ==> Child(g, s, q[|g[s].path|]) == null
    requires Directed(g, head, maxbits, q, s)
    requires d <= |g[s].path| && d <= bitlen && q[..d] == g[s].path[..d]
    requires d < |g[s].path| && d < bitlen ==> q[d] != g[s].path[d]
    requires Below(g, head, maxbits, s, n) && Topmost(g, n, d)
    ensures ClimbEnd(g, q, bitlen, n, d)
  {
    BelowPath(g, head, maxbits, s, n);
    assert g[n].path[..d] == g[s].path[..d];
  }

  lemma SlotFree(g: Graph, q: Bits, bitlen: nat, n: Node)
    requires n in g && ClimbEnd(g, q, bitlen, n, |g[n].path|) && |g[n].path| < bitlen
    ensures |g[n].path| < |q| && Child(g, n, q[|g[n].path|]) == null
  {
  }

  /** Unless the climb ends on the very prefix, no node carries it. */
  lemma ClimbEndFresh(g: Graph, head: Node?, maxbits: nat, q: Bits, bitlen: nat, n: Node, d: nat)
    requires WF(g, head, maxbits) && n in g && ClimbEnd(g, q, bitlen, n, d)
    requires !(|g[n].path| == d == bitlen)
    ensures NoPath(g, q[..bitlen])
  {
    forall m | m in g
      ensures g[m].path != q[..bitlen]
    {
      if g[m].path == q[..bitlen] {
        assert g[m].path[..d] == q[..d];
        TopmostCovers(g, head, maxbits, n, d, m);
        BelowPath(g, head, maxbits, m, n);
        if m != n {
          BelowChild(g, head, maxbits, m, n);
        }
      }
    }
  }

  /** The outcome of an insertion that makes a new node `c` for `p`. */
  ghost predicate NewLeafAt(g: Graph, h: Graph, c: Node, p: Prefix) {
    c !in g && c in h && p.bitlen <= ADDR_BITS && h[c].path == Key(p) && h[c].prefix == Some(p) && h[c].data == null
  }

  lemma FillCase(g: Graph, head: Node?, maxbits: nat, m: map<Bits, Node>, n: Node, p: Prefix)
    requires WF(g, head, maxbits) && Represents(g, m) && n in g && p.bitlen <= ADDR_BITS
    requires g[n].path == Key(p) && g[n].prefix.None?
    ensures Key(p) !in m && g[n].data == null
    ensures var h := Fill(g, n, p);
            WF(h, head, maxbits) && Represents(h, m[Key(p) := n]) && DataKept(g, h)
  {
    assert NodeOk(g, n, maxbits);
    GlueNotInMap(g, head, maxbits, m, n);
    FillWF(g, head, maxbits, n, p);
    FillMap(g, m, n, p);
  }

  lemma ChildCase(g: Graph, head: Node?, maxbits: nat, m: map<Bits, Node>, n: Node, c: Node, p: Prefix)
    requires WF(g, head, maxbits) && Represents(g, m) && n in g && c !in g && p.bitlen <= maxbits && p.bitlen <= ADDR_BITS
    requires ClimbEnd(g, Expand(p.addr), p.bitlen, n, |g[n].path|) && |g[n].path| < p.bitlen
    ensures Key(p) !in m
    ensures var h := AddChild(g, n, c, p);
            WF(h, head, maxbits) && Represents(h, m[Key(p) := c]) && DataKept(g, h) && NewLeafAt(g, h, c, p)
  {
    ClimbEndFresh(g, head, maxbits, Expand(p.addr), p.bitlen, n, |g[n].path|);
    AddChildWF(g, head, maxbits, n, c, p);
    AddChildMap(g, m, n, c, p);
  }

  lemma ParentCase(g: Graph, head: Node?, maxbits: nat, m: map<Bits, Node>, n: Node, c: Node, p: Prefix)
    requires WF(g, head, maxbits) && Represents(g, m) && n in g && c !in g && p.bitlen <= maxbits && p.bitlen <= ADDR_BITS
    requires ClimbEnd(g, Expand(p.addr), p.bitlen, n, p.bitlen) && p.bitlen < |g[n].path|
    ensures (g[n].parent != null ==> g[n].parent in g) && Key(p) !in m
    ensures var h := AddParent(g, n, c, p);
            WF(h, NewHead(g, head, n, c), maxbits) && Represents(h, m[Key(p) := c]) && DataKept(g, h) && NewLeafAt(g, h, c, p)
  {
    assert NodeOk(g, n, maxbits);
    ClimbEndFresh(g, head, maxbits, Expand(p.addr), p.bitlen, n, p.bitlen);
    AddParentWF(g, head, maxbits, n, c, p);
    AddParentMap(g, m, n, c, p);
  }

  lemma GlueCase(g: Graph, head: Node?, maxbits: nat, m: map<Bits, Node>, n: Node, glue: Node, c: Node, d: nat, p: Prefix)
    requires WF(g, head, maxbits) && Represents(g, m) && n in g && c !in g && glue !in g && glue != c
    requires p.bitlen <= maxbits && p.bitlen <= ADDR_BITS
    requires ClimbEnd(g, Expand(p.addr), p.bitlen, n, d) && d < p.bitlen && d < |g[n].path|
    ensures (g[n].parent != null ==> g[n].parent in g) && Key(p) !in m
    ensures var h := AddGlue(g, n, glue, c, d, p);
            WF(h, NewHead(g, head, n, glue), maxbits) && Represents(h, m[Key(p) := c]) && DataKept(g, h) && NewLeafAt(g, h, c, p)
  {
    assert NodeOk(g, n, maxbits);
    ClimbEndFresh(g, head, maxbits, Expand(p.addr), p.bitlen, n, d);
    assert Key(p)[..d] == g[n].path[..d];
    AddGlueWF(g, head, maxbits, n, glue, c, d, p);
    AddGlueMap(g, m, n, glue, c, d, p);
  }

  lemma NodeFacts(g: Graph, head: Node?, maxbits: nat, n: Node)
    requires WF(g, head, maxbits) && n in g
    ensures g[n].parent != n && (g[n].parent == null ==> n == head)
    ensures g[n].parent != null ==> g[n].parent in g && (g[g[n].parent].l == n || g[g[n].parent].r == n)
    ensures g[n].bit == |g[n].path| <= maxbits
  {
    assert NodeOk(g, n, maxbits);
    if g[n].parent != null {
      ParentShorter(g, head, maxbits, n);
    }
  }

  /** Data of the remaining nodes is unchanged, except at `n`. */
  ghost predicate DataKeptExcept(g: Graph, h: Graph, n: Node) {
    forall x {:trigger h[x]} {:trigger x in h} :: x in h ==> x in g && (x != n ==> h[x].data == g[x].data)
  }

  lemma InnerCase(g: Graph, head: Node?, maxbits: nat, m: map<Bits, Node>, n: Node)
    requires WF(g, head, maxbits) && Represents(g, m) && n in g && g[n].l != null && g[n].r != null
    ensures var h := Empty(g, n);
            WF(h, head, maxbits) && Represents(h, if g[n].prefix.Some? then m - {g[n].path} else m)
            && DataKeptExcept(g, h, n)
  {
    EmptyWF(g, head, maxbits, n);
    if g[n].prefix.Some? {
      EmptyMap(g, m, n);
    } else {
      assert NodeOk(g, n, maxbits);
      assert Empty(g, n) == g;
    }
  }

  lemma ThinCase(g: Graph, head: Node?, maxbits: nat, m: map<Bits, Node>, n: Node, c: Node?)
    requires WF(g, head, maxbits) && Represents(g, m) && n in g
    requires (g[n].l == null && g[n].r == c) || (g[n].r == null && g[n].l == c)
    requires c == null && g[n].parent != null && g[n].parent in g ==> g[g[n].parent].prefix.Some?
    ensures (g[n].parent != null ==> g[n].parent in g) && (c != null ==> c in g) && g[n].prefix.Some?
    ensures c != n && (c != null ==> c != g[n].parent)
    ensures var h := Splice(g, n, c);
            WF(h, NewHead(g, head, n, c), maxbits) && Represents(h, m - {g[n].path}) && DataKeptExcept(g, h, n)
  {
    assert NodeOk(g, n, maxbits);
    if c != null {
      ParentShorter(g, head, maxbits, c);
    }
    if g[n].parent != null {
      ParentShorter(g, head, maxbits, n);
    }
    SpliceWF(g, head, maxbits, n, c);
    SpliceMap(g, m, n, c);
  }

  ghost predicate LeafUnderGlue(g: Graph, n: Node, glue: Node) {
    && n in g && glue in g && glue != n && g[n].parent == glue
    && (g[glue].parent != null ==>
          g[glue].parent in g && (g[g[glue].parent].l == glue || g[g[glue].parent].r == glue))
    && g[glue].parent != glue && g[glue].parent != n
    && g[glue].l != null && g[glue].r != null && g[glue].l in g && g[glue].r in g && g[glue].l != g[glue].r
    && (g[glue].l == n || g[glue].r == n)
    && g[glue].l != glue && g[glue].r != glue && g[glue].parent != g[glue].l && g[glue].parent != g[glue].r
  }

  /** The sibling of the leaf takes the place of the glue node. */
  ghost function WithoutLeafAndGlue(g: Graph, n: Node, glue: Node): Graph
    requires LeafUnderGlue(g, n, glue)
  {
    DropLeafAndGlue(g, n, glue, if g[glue].r == n then g[glue].l else g[glue].r)
  }

  ghost function HeadWithout(g: Graph, head: Node?, n: Node, glue: Node): Node?
    requires LeafUnderGlue(g, n, glue)
  {
    NewHead(g, head, glue, if g[glue].r == n then g[glue].l else g[glue].r)
  }

  lemma LeafAndGlueCase(g: Graph, head: Node?, maxbits: nat, m: map<Bits, Node>, n: Node, glue: Node)
    requires WF(g, head, maxbits) && Represents(g, m) && n in g && g[n].l == null && g[n].r == null
    requires g[n].parent == glue && glue in g && g[glue].prefix.None?
    ensures LeafUnderGlue(g, n, glue) && head == NewHead(g, head, glue, glue) && g[n].prefix.Some?
    ensures var h := WithoutLeafAndGlue(g, n, glue);
            WF(h, HeadWithout(g, head, n, glue), maxbits) && Represents(h, m - {g[n].path}) && DataKeptExcept(g, h, n)
  {
    assert NodeOk(g, n, maxbits) && NodeOk(g, glue, maxbits);
    ParentShorter(g, head, maxbits, g[glue].l);
    ParentShorter(g, head, maxbits, g[glue].r);
    if g[glue].parent != null {
      ParentShorter(g, head, maxbits, glue);
    }
    var sib := if g[glue].r == n then g[glue].l else g[glue].r;
    DropLeafAndGlueWF(g, head, maxbits, n, glue, sib);
    DropLeafAndGlueMap(g, m, n, glue, sib);
  }

  lemma DropLeafAndGlueSteps(g: Graph, x: Links, n: Node, glue: Node, sib: Node)
    requires glue in g && sib in g && glue != sib && x.parent == g[glue].parent
    requires g[glue].parent != null ==> g[glue].parent in g && g[glue].parent != glue && g[glue].parent != sib
    ensures Redirect(g[glue := x], glue, sib)[sib := g[sib].(parent := g[glue].parent)] - {n, glue}
            == DropLeafAndGlue(g, n, glue, sib)
    ensures NewHead(g[glue := x], null, glue, sib) == NewHead(g, null, glue, sib)
  {
  }
}
