/**
 The patricia trie itself (patricia.c): node objects updated in place.

 `stored` is the finite map the trie stands for: it sends the bits of every stored prefix to the node object
 that holds it. Every method is specified by what it does to `stored`, to the node objects and to their data.
 */
module Patricia {
  import opened Wrappers
  import opened AddressBits
  import opened TrieGraph
  import opened TrieUpdate
  import opened TrieSearch
  import opened TrieWalk

  const PATRICIA_MAXBITS := 64

  /** patricia_tree_t */
  class Tree {
    var head: Node?
    const maxbits: nat
    var numActiveNode: int
    ghost var nodes: set<Node>
    ghost var stored: map<Bits, Node>

    ghost function G(): Graph
      reads `nodes, nodes
    {
      map n | n in nodes :: Fields(n)
    }

    static ghost function Fields(n: Node): Links
      reads n
    {
      Links(n.path, n.bit, n.prefix, n.data, n.l, n.r, n.parent)
    }

    ghost predicate Valid()
      reads this, nodes
    {
      && maxbits <= PATRICIA_MAXBITS
      && WF(G(), head, maxbits)
      && Represents(G(), stored)
      && numActiveNode == |nodes|
    }

    lemma StoredNode(k: Bits)
      requires Valid() && k in stored
      ensures stored[k] in nodes && stored[k].path == k && stored[k].prefix.Some?
    {
      assert G()[stored[k]].path == k;
    }

    lemma ContentOf(n: Node)
      requires Valid() && n in nodes
      ensures ContentOk(Fields(n)) && n.bit <= maxbits && G()[n] == Fields(n)
    {
      assert NodeOk(G(), n, maxbits);
    }

    /** New_Patricia */
    constructor (maxbits: nat)
      requires maxbits <= PATRICIA_MAXBITS
      ensures Valid() && this.maxbits == maxbits && stored == map[] && nodes == {}
    {
      this.maxbits := maxbits;
      head, numActiveNode, nodes, stored := null, 0, {}, map[];
    }

    // ---- searching -----------------------------------------------------------------------------------

    /** patricia_search_exact */
    method SearchExact(p: Prefix) returns (found: Node?)
      requires Valid() && p.bitlen <= maxbits
      ensures found == if Key(p) in stored then stored[Key(p)] else null
    {
      if head == null {
        return null;
      }
      ghost var g, key := G(), Key(p);
      var node := head;
      if key in stored {
        BelowHead(g, head, maxbits, stored[key]);
      }
      while node.bit < p.bitlen
        invariant node in nodes
        invariant key in stored ==> Below(g, head, maxbits, stored[key], node)
        decreases maxbits - node.bit
      {
        var next := Step(node, p.addr);
        if key in stored {
          BelowChild(g, head, maxbits, stored[key], node);
        }
        if next == null {
          return null;
        }
        node := next;
      }
      found := CheckExact(p, node);
    }

    /** One step down, towards the side of the address bit the node tests. */
    method Step(node: Node, addr: Address) returns (next: Node?)
      requires Valid() && node in nodes && node.bit < maxbits
      ensures node.bit == |node.path| && next == Child(G(), node, Expand(addr)[node.bit])
      ensures next != null ==> next in nodes && node.bit < next.bit <= maxbits
    {
      assert NodeOk(G(), node, maxbits);
      next := if AddrBit(addr, node.bit) then node.r else node.l;
      if next != null {
        assert NodeOk(G(), next, maxbits);
      }
    }

    /** The tests at the node where the exact search stopped. */
    method CheckExact(p: Prefix, node: Node) returns (found: Node?)
      requires Valid() && p.bitlen <= maxbits && node in nodes && node.bit >= p.bitlen
      requires Key(p) in stored ==> Below(G(), head, maxbits, stored[Key(p)], node)
      ensures found == if Key(p) in stored then stored[Key(p)] else null
    {
      ContentOf(node);
      if Key(p) in stored {
        BelowPath(G(), head, maxbits, stored[Key(p)], node);
      }
      if node.bit > p.bitlen || node.prefix.None? {
        return null;
      }
      assert node.bit == p.bitlen && node.prefix.value.bitlen == node.bit;
      CompWithMaskIsPrefixEquality(node.prefix.value.addr, p.addr, p.bitlen);
      if CompWithMask(node.prefix.value.addr, p.addr, p.bitlen) {
        assert G()[node].prefix.Some?;
        return node;
      }
      return null;
    }

    /** patricia_search_best2: push every prefix passed on the way down, then pop until one matches. */
    method SearchBest2(p: Prefix, inclusive: bool) returns (best: Node?)
      requires Valid() && p.bitlen <= maxbits
      ensures best != null ==> best in nodes && best.path in stored && stored[best.path] == best
      ensures IsBest(stored.Keys, Key(p), inclusive, if best == null then None else Some(best.path))
    {
      var stack := PushPath(p, inclusive);
      best := PopBest(p, inclusive, stack);
    }

    /** All candidates for the query are on the stack. */
    ghost predicate Complete(p: Prefix, inclusive: bool, st: seq<Node?>)
      requires p.bitlen <= ADDR_BITS
      reads this, nodes
    {
      && StackOk(G(), st, maxbits + 1) && (!inclusive ==> StackOk(G(), st, p.bitlen))
      && (forall n {:trigger G()[n].prefix} ::
            n in G() && G()[n].prefix.Some? && Matches(G()[n].path, Key(p), inclusive) ==> n in st)
    }

    lemma HeadInside()
      requires Valid()
      ensures head != null ==> head in nodes
    {
    }

    /** The descent. The stack never outgrows the array of PATRICIA_MAXBITS + 1 entries it lives in. */
    method PushPath(p: Prefix, inclusive: bool) returns (stack: seq<Node?>)
      requires Valid() && p.bitlen <= maxbits
      ensures |stack| <= maxbits + 1 && Complete(p, inclusive, stack)
    {
      hide StackOk, Covered, WF, Represents, ContentOk;
      ghost var g := G();
      stack := [];
      HeadInside();
      EmptyStackOk(g, p.bitlen);
      var node := head;
      if node != null {
        EmptyStackOk(g, node.bit);
      }
      CoveredAtHead(g, head, maxbits, Key(p));
      while node != null && node.bit < p.bitlen
        invariant |stack| <= maxbits
        invariant node != null ==> node in nodes && |stack| <= node.bit && StackOk(g, stack, node.bit)
        invariant StackOk(g, stack, p.bitlen)
        invariant Covered(g, head, maxbits, Key(p), stack, node)
        decreases if node == null then 0 else 1 + maxbits - node.bit
      {
        var next := Step(node, p.addr);
        CoveredStep(g, head, maxbits, Key(p), stack, node);
        StackPush(g, stack, node);
        StackBound(g, Pushed(g, stack, node), node.bit + 1, p.bitlen);
        if next != null {
          StackBound(g, Pushed(g, stack, node), node.bit + 1, next.bit);
        }
        if node.prefix.Some? {
          stack := stack + [node];
        }
        node := next;
      }
      if node != null {
        GlueInside(node);
        StackPush(g, stack, node);
        StackBound(g, Pushed(g, stack, node), node.bit + 1, maxbits + 1);
      }
      StackComplete(g, head, maxbits, Key(p), stack, node, inclusive);
      StackBound(g, stack, p.bitlen, maxbits + 1);
      if inclusive && node != null && node.prefix.Some? {
        stack := stack + [node];
      }
    }

    method PopBest(p: Prefix, inclusive: bool, stack: seq<Node?>) returns (best: Node?)
      requires Valid() && p.bitlen <= maxbits && Complete(p, inclusive, stack)
      ensures best != null ==> best in nodes && best.path in stored && stored[best.path] == best
      ensures IsBest(stored.Keys, Key(p), inclusive, if best == null then None else Some(best.path))
    {
      hide IsBest, WF, Represents;
      ghost var g, key := G(), Key(p);
      var cnt := |stack|;
      while cnt > 0
        invariant 0 <= cnt <= |stack|
        invariant forall j {:trigger stack[j]} :: cnt <= j < |stack| ==> stack[j] in g && !(g[stack[j]].path <= key)
      {
        cnt := cnt - 1;
        var node := stack[cnt];
        var covers := Covers(node, p);
        if covers {
          TopEntryIsBest(g, stored, key, inclusive, stack, maxbits + 1, cnt);
          return node;
        }
      }
      NoEntryIsNone(g, stored, key, inclusive, stack);
      return null;
    }

    /** The test on each popped entry. */
    method Covers(node: Node, p: Prefix) returns (covers: bool)
      requires Valid() && p.bitlen <= maxbits && node in nodes && node.prefix.Some?
      ensures covers <==> node.path <= Key(p)
    {
      ContentOf(node);
      var b := node.prefix.value.bitlen;
      CompWithMaskIsPrefixEquality(node.prefix.value.addr, p.addr, b);
      covers := CompWithMask(node.prefix.value.addr, p.addr, b) && b <= p.bitlen;
    }

    // ---- insertion -----------------------------------------------------------------------------------

    /** The descent of patricia_lookup: towards the bits of `p` until a stored prefix of at least its length,
        or a missing child. */
    method Descend(p: Prefix) returns (node: Node)
      requires Valid() && p.bitlen <= maxbits && head != null
      ensures node in nodes && node.prefix.Some?
      ensures p.bitlen <= node.bit || Child(G(), node, Expand(p.addr)[node.bit]) == null
      ensures Directed(G(), head, maxbits, Expand(p.addr), node)
    {
      hide Directed;
      ghost var g, q := G(), Expand(p.addr);
      node := head;
      DirectedHead(g, head, maxbits, q);
      while node.bit < p.bitlen || node.prefix.None?
        invariant node in nodes && Directed(g, head, maxbits, q, node)
        decreases maxbits - node.bit
      {
        GlueInside(node);
        var next := Step(node, p.addr);
        if next == null {
          return;
        }
        DirectedStep(g, head, maxbits, q, node);
        node := next;
      }
    }

    /** A glue node has children and hence room for one more bit. */
    lemma GlueInside(node: Node)
      requires Valid() && node in nodes
      ensures node.bit == |node.path| <= maxbits && node.bit == |G()[node].path|
      ensures node.prefix.None? ==> node.bit < maxbits && node.l != null && node.r != null
    {
      assert NodeOk(G(), node, maxbits);
      if node.prefix.None? {
        assert NodeOk(G(), node.l, maxbits);
      }
    }

    /** The climb back to the topmost node that has at least `d` bits. */
    method Climb(start: Node, d: nat) returns (node: Node)
      requires Valid() && start in nodes && d <= start.bit
      ensures node in nodes && Below(G(), head, maxbits, start, node) && Topmost(G(), node, d)
    {
      ghost var g := G();
      node := start;
      var parent := node.parent;
      GlueInside(node);
      assert NodeOk(g, node, maxbits);
      while parent != null && parent.bit >= d
        invariant node in nodes && d <= node.bit == |node.path| && parent == node.parent
        invariant parent != null ==> parent in nodes
        invariant Below(g, head, maxbits, start, node)
        decreases node.bit
      {
        ParentShorter(g, head, maxbits, node);
        assert Below(g, head, maxbits, node, parent);
        BelowTrans(g, head, maxbits, start, node, parent);
        GlueInside(parent);
        node := parent;
        parent := node.parent;
        assert NodeOk(g, node, maxbits);
      }
      if parent != null {
        GlueInside(parent);
      }
    }

    /** The link from above: either `node` is the head, or its parent points down to it. */
    ghost predicate Linked(node: Node)
      reads `nodes, `head, nodes, node
    {
      if node.parent == null then head == node
      else node.parent in nodes && node.parent != node && (node.parent.l == node || node.parent.r == node)
    }

    lemma NodeLinked(node: Node)
      requires Valid() && node in nodes
      ensures Linked(node) && node.bit == |node.path| <= maxbits
    {
      hide WF;
      NodeFacts(G(), head, maxbits, node);
    }

    /** Let whatever points down to `node` (its parent, or the tree head) point to `to` instead. */
    method Repoint(node: Node, to: Node?)
      requires node in nodes && Linked(node)
      modifies `head, nodes`l, nodes`r
      ensures G() == Redirect(old(G()), node, to) && head == NewHead(old(G()), old(head), node, to)
    {
      var parent := node.parent;
      if parent == null {
        assert head == node;
        head := to;
      } else if parent.r == node {
        parent.r := to;
      } else {
        assert parent.l == node;
        parent.l := to;
      }
    }

    /** Put `above` between `node` and whatever pointed down to it. */
    method Displace(node: Node, above: Node)
      requires node in nodes && above !in nodes && Linked(node)
      modifies this`head, nodes`l, nodes`r, nodes`parent
      ensures G() == Redirect(old(G()), node, above)[node := old(G()[node]).(parent := above)]
      ensures head == NewHead(old(G()), old(head), node, above)
    {
      Repoint(node, above);
      node.parent := above;
    }

    /** A finished node becomes part of the trie. */
    ghost method Enroll(n: Node)
      requires n !in nodes
      modifies this`nodes
      ensures nodes == old(nodes) + {n} && |nodes| == |old(nodes)| + 1
      ensures G() == old(G())[n := Fields(n)]
    {
      nodes := nodes + {n};
    }

    /** "child": a new leaf under `node`. */
    method InsertChild(p: Prefix, node: Node) returns (newNode: Node)
      requires node in nodes && |node.path| == node.bit < p.bitlen <= ADDR_BITS && node.bit < maxbits
      requires Child(G(), node, Expand(p.addr)[node.bit]) == null
      modifies `nodes, `numActiveNode, node`l, node`r
      ensures fresh(newNode) && nodes == old(nodes) + {newNode}
      ensures numActiveNode - |nodes| == old(numActiveNode - |nodes|)
      ensures G() == AddChild(old(G()), node, newNode, p)
    {
      newNode := new Node(p.bitlen, Some(p), node, Key(p));
      numActiveNode := numActiveNode + 1;
      if node.bit < maxbits && AddrBit(p.addr, node.bit) {
        assert node.r == null;
        node.r := newNode;
      } else {
        assert node.l == null;
        node.l := newNode;
      }
      Enroll(newNode);
    }

    /** "parent": a new node between `node` and whatever pointed to it. */
    method InsertParent(p: Prefix, node: Node, testAddr: Address) returns (newNode: Node)
      requires node in nodes && Linked(node)
      requires p.bitlen < |node.path| && p.bitlen < maxbits <= ADDR_BITS
      requires AddrBit(testAddr, p.bitlen) == node.path[p.bitlen]
      modifies `nodes, `head, `numActiveNode, nodes`l, nodes`r, nodes`parent
      ensures fresh(newNode) && nodes == old(nodes) + {newNode}
      ensures numActiveNode - |nodes| == old(numActiveNode - |nodes|)
      ensures G() == AddParent(old(G()), node, newNode, p)
      ensures head == NewHead(old(G()), old(head), node, newNode)
    {
      newNode := AllocParent(p, node, testAddr);
      numActiveNode := numActiveNode + 1;
      assert G() == old(G());
      Displace(node, newNode);
      Enroll(newNode);
    }

    method AllocParent(p: Prefix, node: Node, testAddr: Address) returns (newNode: Node)
      requires p.bitlen < maxbits <= ADDR_BITS
      ensures fresh(newNode)
      ensures Fields(newNode) == WithChild(NewLeaf(p, node.parent), AddrBit(testAddr, p.bitlen), node)
    {
      newNode := new Node(p.bitlen, Some(p), node.parent, Key(p));
      if p.bitlen < maxbits && AddrBit(testAddr, p.bitlen) {
        newNode.r := node;
      } else {
        newNode.l := node;
      }
    }

    method AllocGlue(p: Prefix, node: Node, d: nat) returns (newNode: Node, glue: Node)
      requires d < p.bitlen <= ADDR_BITS && d < maxbits
      ensures fresh(newNode) && fresh(glue) && newNode != glue
      ensures Fields(newNode) == NewLeaf(p, glue)
      ensures Fields(glue) == NewGlue(Key(p)[..d], Key(p)[d], newNode, node, node.parent)
    {
      newNode := new Node(p.bitlen, Some(p), null, Key(p));
      if d < maxbits && AddrBit(p.addr, d) {
        glue := new Node.Glue(d, node, newNode, node.parent, Key(p)[..d]);
      } else {
        glue := new Node.Glue(d, newNode, node, node.parent, Key(p)[..d]);
      }
      newNode.parent := glue;
    }

    /** "glue+node": a new glue node with `node` on one side and a new leaf on the other. */
    method InsertGlue(p: Prefix, node: Node, d: nat) returns (newNode: Node, glue: Node)
      requires node in nodes && Linked(node)
      requires d < p.bitlen <= ADDR_BITS && d < maxbits
      modifies `nodes, `head, `numActiveNode, nodes`l, nodes`r, nodes`parent
      ensures fresh(newNode) && fresh(glue) && newNode != glue && nodes == old(nodes) + {newNode, glue}
      ensures numActiveNode - |nodes| == old(numActiveNode - |nodes|)
      ensures G() == AddGlue(old(G()), node, glue, newNode, d, p)
      ensures head == NewHead(old(G()), old(head), node, glue)
    {
      hide Redirect, NewHead, NewGlue, Key;
      newNode, glue := AllocGlue(p, node, d);
      numActiveNode := numActiveNode + 2;
      assert G() == old(G());
      Displace(node, glue);
      Enroll(glue);
      Enroll(newNode);
    }

    /** What patricia_lookup promises: `res` holds exactly the prefix `p`, and nothing else has changed in
        the represented map, in the identity of the nodes or in their data. */
    twostate predicate Added(p: Prefix, new res: Node)
      requires p.bitlen <= ADDR_BITS
      reads this, nodes
    {
      && Valid()
      && res in nodes && G()[res].path == Key(p) && G()[res].prefix.Some?
      && stored == old(stored)[Key(p) := res]
      && old(nodes) <= nodes
      && (Key(p) in old(stored) ==> res == old(stored[Key(p)]) && nodes == old(nodes) && G() == old(G()))
      && (Key(p) !in old(stored) ==> G()[res].data == null && G()[res].prefix == Some(p))
      && DataKept(old(G()), G())
    }

    method AddAsChild(p: Prefix, node: Node) returns (newNode: Node)
      requires Valid() && p.bitlen <= maxbits && node in nodes
      requires ClimbEnd(G(), Expand(p.addr), p.bitlen, node, |node.path|) && |node.path| < p.bitlen
      modifies this, nodes
      ensures Added(p, newNode) && fresh(nodes - old(nodes))
    {
      hide WF, Represents, DataKept, AddChild, ClimbEnd, NodeOk, NewHead, Key, ContentOk;
      ghost var g := G();
      NodeFacts(g, head, maxbits, node);
      SlotFree(g, Expand(p.addr), p.bitlen, node);
      newNode := InsertChild(p, node);
      ChildCase(g, head, maxbits, stored, node, newNode, p);
      stored := stored[Key(p) := newNode];
    }

    method AddAsParent(p: Prefix, node: Node, testAddr: Address) returns (newNode: Node)
      requires Valid() && p.bitlen <= maxbits && node in nodes
      requires ClimbEnd(G(), Expand(p.addr), p.bitlen, node, p.bitlen)
      requires p.bitlen < |node.path| && AddrBit(testAddr, p.bitlen) == node.path[p.bitlen]
      modifies this, nodes
      ensures Added(p, newNode) && fresh(nodes - old(nodes))
    {
      hide WF, Represents, DataKept, Linked, Expand, AddParent, ClimbEnd, NodeOk, NewHead, Key, ContentOk;
      ghost var g, head0 := G(), head;
      NodeLinked(node);
      newNode := InsertParent(p, node, testAddr);
      ParentCase(g, head0, maxbits, stored, node, newNode, p);
      stored := stored[Key(p) := newNode];
    }

    method AddWithGlue(p: Prefix, node: Node, d: nat) returns (newNode: Node)
      requires Valid() && p.bitlen <= maxbits && node in nodes
      requires ClimbEnd(G(), Expand(p.addr), p.bitlen, node, d) && d < p.bitlen && d < |node.path|
      modifies this, nodes
      ensures Added(p, newNode) && fresh(nodes - old(nodes))
    {
      hide WF, Represents, DataKept, Linked, Expand, AddGlue, ClimbEnd, NodeOk, NewHead, Key, ContentOk;
      ghost var g, head0 := G(), head;
      NodeLinked(node);
      var glue;
      newNode, glue := InsertGlue(p, node, d);
      GlueCase(g, head0, maxbits, stored, node, glue, newNode, d, p);
      stored := stored[Key(p) := newNode];
    }

    /** The climb ended on a node for exactly this prefix: found, or a glue node to be filled. */
    method AddInPlace(p: Prefix, node: Node)
      requires Valid() && p.bitlen <= maxbits && node in nodes
      requires ClimbEnd(G(), Expand(p.addr), p.bitlen, node, p.bitlen) && |node.path| == p.bitlen
      modifies this, nodes
      ensures Added(p, node) && nodes == old(nodes)
    {
      ghost var g := G();
      assert g[node].path == Key(p);
      if node.prefix.None? {
        hide WF, Represents, DataKept, ClimbEnd, ContentOk;
        FillCase(g, head, maxbits, stored, node, p);
        stored := stored[Key(p) := node];
        FillPrefix(node, p);
      } else {
        assert g[node].prefix.Some?;
      }
    }

    method FillPrefix(node: Node, p: Prefix)
      requires node in nodes && node.prefix.None?
      modifies node`prefix
      ensures G() == Fill(old(G()), node, p)
    {
      node.prefix := Some(p);
    }

    /** The first half of patricia_lookup: down, compare, and up again. */
    method Locate(p: Prefix) returns (node: Node, d: nat, testAddr: Address)
      requires Valid() && p.bitlen <= maxbits && head != null
      ensures node in nodes && d <= |node.path| && ClimbEnd(G(), Expand(p.addr), p.bitlen, node, d)
      ensures |node.path| <= maxbits && node.path <= Expand(testAddr) && node.bit == |node.path|
    {
      hide WF, Represents, ClimbEnd, Directed;
      ghost var g := G();
      var s := Descend(p);
      ContentOf(s);
      testAddr := s.prefix.value.addr;
      var checkBit := if s.bit < p.bitlen then s.bit else p.bitlen;
      d := DifferBit(p.addr, testAddr, checkBit);
      assert s.path == Expand(testAddr)[..s.bit];
      assert s.path[..d] == Expand(testAddr)[..d];
      node := Climb(s, d);
      ContentOf(node);
      ClimbEnds(g, head, maxbits, Expand(p.addr), p.bitlen, s, node, d);
      BelowPath(g, head, maxbits, s, node);
    }

    /** patricia_lookup: find the node of `p`, making it if necessary. */
    method Lookup(p: Prefix) returns (node: Node)
      requires Valid() && p.bitlen <= maxbits
      modifies this, nodes
      ensures Added(p, node) && fresh(nodes - old(nodes))
    {
      if head == null {
        node := AddHead(p);
        return;
      }
      hide WF, Represents, DataKept, Expand, ContentOk;
      var at, d, testAddr := Locate(p);
      if d == p.bitlen && at.bit == p.bitlen {
        AddInPlace(p, at);
        node := at;
      } else if at.bit == d {
        node := AddAsChild(p, at);
      } else if p.bitlen == d {
        node := AddAsParent(p, at, testAddr);
      } else {
        node := AddWithGlue(p, at, d);
      }
    }

    method AddHead(p: Prefix) returns (node: Node)
      requires Valid() && p.bitlen <= maxbits && head == null
      modifies this
      ensures Added(p, node) && fresh(nodes - old(nodes))
    {
      node := new Node(p.bitlen, Some(p), null, Key(p));
      head, numActiveNode := node, numActiveNode + 1;
      assert nodes == {} by {
        assert G().Keys == nodes;
      }
      nodes, stored := {node}, stored[Key(p) := node];
      assert G() == map[node := NewLeaf(p, null)];
      assert NodeOk(G(), node, maxbits);
    }

    /** The user's data pointer of a node that holds a prefix. */
    method PutData(node: Node, d: object?)
      requires Valid() && node in nodes && node.prefix.Some?
      modifies node`data
      ensures Valid() && stored == old(stored) && nodes == old(nodes) && G() == SetData(old(G()), node, d)
    {
      hide WF, Represents;
      SetDataKeeps(G(), head, maxbits, stored, node, d);
      node.data := d;
      assert G() == SetData(old(G()), node, d);
    }

    // ---- removal -------------------------------------------------------------------------------------

    /** What patricia_remove promises: only the prefix of `node` leaves the map; every other prefix stays on
        the very same node object, with its data. */
    twostate predicate Removed(node: Node)
      requires node in old(nodes)
      reads this, nodes
    {
      && Valid()
      && stored == old(if node.prefix.Some? then stored - {node.path} else stored)
      && nodes <= old(nodes)
      && DataKeptExcept(old(G()), G(), node)
    }

    /** Nodes leave the trie; the C code frees them. */
    ghost method Discharge(gone: set<Node>)
      requires gone <= nodes
      modifies `nodes
      ensures nodes == old(nodes) - gone && |nodes| == |old(nodes)| - |gone|
      ensures G() == old(G()) - gone
    {
      nodes := nodes - gone;
    }

    /** Two children: the node stays as a glue node. */
    method RemoveInner(node: Node)
      requires Valid() && node in nodes && node.l != null && node.r != null
      modifies this, nodes
      ensures Removed(node)
    {
      hide WF, Represents, NodeOk, DataKeptExcept, Empty;
      InnerCase(G(), head, maxbits, stored, node);
      stored := if node.prefix.Some? then stored - {node.path} else stored;
      ClearPrefix(node);
    }

    method ClearPrefix(node: Node)
      requires node in nodes
      modifies node`prefix, node`data
      ensures G() == Empty(old(G()), node)
    {
      node.prefix := None;
      node.data := null;
    }

    /** A node with at most one child whose parent, if it loses a child, holds a prefix. */
    method RemoveThin(node: Node, child: Node?)
      requires Valid() && node in nodes
      requires (node.l == null && node.r == child) || (node.r == null && node.l == child)
      requires child == null && node.parent != null && node.parent in nodes ==> node.parent.prefix.Some?
      modifies this, nodes
      ensures Removed(node)
    {
      hide WF, Represents, NodeOk, Splice, Linked, DataKeptExcept;
      ghost var g, head0 := G(), head;
      NodeFacts(g, head, maxbits, node);
      NodeLinked(node);
      ThinCase(g, head, maxbits, stored, node, child);
      Unlink(node, child);
      stored := stored - {g[node].path};
    }

    method Unlink(node: Node, child: Node?)
      requires node in nodes && Linked(node) && child != node && (child != null ==> child in nodes && child != node.parent)
      modifies `head, `nodes, `numActiveNode, nodes`l, nodes`r, nodes`parent
      ensures G() == Splice(old(G()), node, child) && head == NewHead(old(G()), old(head), node, child)
      ensures nodes == old(nodes) - {node} && numActiveNode - |nodes| == old(numActiveNode - |nodes|)
    {
      hide Splice, NewHead, Linked, Redirect;
      Bypass(node, child);
      numActiveNode := numActiveNode - 1;
      Discharge({node});
    }

    method Bypass(node: Node, child: Node?)
      requires node in nodes && Linked(node) && (child != null ==> child in nodes && child != node.parent)
      modifies `head, nodes`l, nodes`r, nodes`parent
      ensures G() - {node} == Splice(old(G()), node, child) && head == NewHead(old(G()), old(head), node, child)
    {
      if child == null {
        Repoint(node, null);
      } else {
        LiftChild(node, child);
      }
    }

    /** `child` takes the place of `node` under the parent of `node`. */
    method LiftChild(node: Node, child: Node)
      requires node in nodes && Linked(node) && child in nodes && child != node.parent
      modifies `head, nodes`l, nodes`r, nodes`parent
      ensures G() == Redirect(old(G()), node, child)[child := old(G()[child]).(parent := old(node.parent))]
      ensures head == NewHead(old(G()), old(head), node, child)
    {
      var parent := node.parent;
      Repoint(node, child);
      SetParent(child, parent);
    }

    method SetParent(node: Node, parent: Node?)
      requires node in nodes
      modifies node`parent
      ensures G() == old(G())[node := old(G()[node]).(parent := parent)]
    {
      node.parent := parent;
    }

    /** A leaf under a glue node: the glue node goes too, and the sibling moves up. */
    method RemoveLeafAndGlue(node: Node, glue: Node)
      requires Valid() && node in nodes && node.l == null && node.r == null
      requires node.parent == glue && glue in nodes && glue.prefix.None?
      modifies this, nodes
      ensures Removed(node)
    {
      hide WF, Represents, NodeOk, DataKeptExcept, WithoutLeafAndGlue, HeadWithout, NewHead, LeafUnderGlue, Extends;
      ghost var g := G();
      LeafAndGlueCase(g, head, maxbits, stored, node, glue);
      UnlinkBoth(node, glue);
      stored := stored - {g[node].path};
    }

    method UnlinkBoth(node: Node, glue: Node)
      requires node in nodes && glue in nodes && head == NewHead(G(), head, glue, glue) && LeafUnderGlue(G(), node, glue)
      modifies `head, `nodes, `numActiveNode, nodes`l, nodes`r, nodes`parent
      ensures G() == WithoutLeafAndGlue(old(G()), node, glue) && head == HeadWithout(old(G()), old(head), node, glue)
      ensures nodes == old(nodes) - {node, glue} && numActiveNode - |nodes| == old(numActiveNode - |nodes|)
    {
      hide WithoutLeafAndGlue, HeadWithout, LeafUnderGlue, NewHead;
      CutBoth(node, glue);
      numActiveNode := numActiveNode - 2;
      Discharge({node, glue});
    }

    method CutBoth(node: Node, glue: Node)
      requires node in nodes && glue in nodes && head == NewHead(G(), head, glue, glue) && LeafUnderGlue(G(), node, glue)
      modifies `head, nodes`l, nodes`r, nodes`parent
      ensures G() - {node, glue} == WithoutLeafAndGlue(old(G()), node, glue) && head == HeadWithout(old(G()), old(head), node, glue)
      ensures node != glue
    {
      ghost var g := G();
      var sib := CutLeaf(node, glue);
      LiftChild(glue, sib);
      DropLeafAndGlueSteps(g, WithChild(g[glue], g[glue].r == node, null), node, glue, sib);
    }

    /** The parent's link to a leaf is cleared; the other child is what is left. */
    method CutLeaf(node: Node, parent: Node) returns (child: Node?)
      requires node in nodes && node.parent == parent && Linked(node)
      modifies parent`l, parent`r
      ensures child == if old(parent.r) == node then old(parent.l) else old(parent.r)
      ensures G() == old(G())[parent := WithChild(old(G()[parent]), old(parent.r) == node, null)]
    {
      if parent.r == node {
        parent.r := null;
        child := parent.l;
      } else {
        assert parent.l == node;
        parent.l := null;
        child := parent.r;
      }
    }

    /** patricia_remove */
    method Remove(node: Node)
      requires Valid() && node in nodes
      modifies this, nodes
      ensures Removed(node)
    {
      ghost var g := G();
      NodeFacts(g, head, maxbits, node);
      if node.r != null && node.l != null {
        RemoveInner(node);
      } else if node.r == null && node.l == null {
        var parent := node.parent;
        if parent == null || parent.prefix.Some? {
          RemoveThin(node, null);
        } else {
          RemoveLeafAndGlue(node, parent);
        }
      } else {
        RemoveThin(node, if node.r != null then node.r else node.l);
      }
    }

    // ---- walking -------------------------------------------------------------------------------------

    /** PATRICIA_WALK: visit every node with an explicit stack and report those that hold a prefix. */
    method Walk() returns (visited: seq<Node>, reported: seq<Node>)
      requires Valid()
      ensures visited == Preorder(G(), head, maxbits, head)
      ensures reported == Holding(G(), visited)
    {
      hide WF, Represents, Preorder, Todo, WalkOk, Holding;
      ghost var g := G();
      visited, reported := [], [];
      var stack: seq<Node> := [];
      var node := head;
      WalkStart(g, head, maxbits);
      assert Holding(g, []) == [] by { HoldingNothing(g); }
      while node != null
        invariant WalkOk(g, stack, node) && |stack| <= maxbits
        invariant node == null ==> stack == []
        invariant reported == Holding(g, visited)
        invariant visited + Todo(g, head, maxbits, stack, node) == Preorder(g, head, maxbits, head)
        decreases |Todo(g, head, maxbits, stack, node)|
      {
        WalkNode(g, stack, node);
        WalkStep(g, head, maxbits, stack, node);
        HoldingSnoc(g, visited, node);
        if node.prefix.Some? {
          reported := reported + [node];
        }
        visited := visited + [node];
        var next := NextOf(node.l, node.r, stack);
        node, stack := next.0, next.1;
      }
      WalkDone(g, head, maxbits);
    }

    /** patricia_walk_inorder: recursive; returns how many prefixes were reported. */
    method WalkInorder(node: Node) returns (n: nat, reported: seq<Node>)
      requires Valid() && node in nodes
      ensures reported == Inorder(G(), head, maxbits, node) && n == |reported|
      decreases maxbits - |node.path|
    {
      hide WF, Represents;
      ghost var g := G();
      ChildrenInGraph(g, head, maxbits, node);
      n, reported := 0, [];
      if node.l != null {
        n, reported := WalkInorder(node.l);
      }
      if node.prefix.Some? {
        n, reported := n + 1, reported + [node];
      }
      if node.r != null {
        var m, right := WalkInorder(node.r);
        n, reported := n + m, reported + right;
      }
    }

    /** Clear_Patricia: free every node, handing the data of the prefixes to `func` if there is one. Nodes
        leave `nodes` when they are freed, so a node that is read is still allocated. */
    method Clear(func: bool) returns (freed: seq<Node>, dropped: seq<object>)
      requires Valid()
      modifies `numActiveNode, `nodes
      ensures nodes == {} && numActiveNode == 0
      ensures freed == old(Preorder(G(), head, maxbits, head))
      ensures dropped == if func then DataOf(old(G()), freed) else []
    {
      hide WF, Represents, Preorder, ClearOk, DataOf, NextOf;
      ghost var g := G();
      freed, dropped := [], [];
      var stack: seq<Node> := [];
      var node := head;
      assert g.Keys == nodes;
      ClearStart(g, head, maxbits);
      DataOfNothing(g);
      while node != null
        invariant ClearOk(g, head, maxbits, stack, node, freed, nodes) && numActiveNode == |nodes|
        invariant dropped == if func then DataOf(g, freed) else []
        invariant |freed| <= |Preorder(g, head, maxbits, head)|
        decreases |Preorder(g, head, maxbits, head)| - |freed|
      {
        ClearStep(g, head, maxbits, stack, node, freed, nodes);
        assert node in nodes;
        DataOfSnoc(g, freed, node);
        var next := NextOf(node.l, node.r, stack);
        if node.prefix.Some? && node.data != null && func {
          dropped := dropped + [node.data];
        }
        freed := freed + [node];
        nodes := nodes - {node};
        numActiveNode := numActiveNode - 1;
        node, stack := next.0, next.1;
      }
      ClearDone(g, head, maxbits, stack, freed, nodes);
    }

    // ---- whole runs ----------------------------------------------------------------------------------

    /** num_active_node counts the nodes, and glue nodes are fewer than prefixes. */
    lemma CountBound()
      requires Valid()
      ensures numActiveNode == |nodes|
      ensures stored != map[] ==> numActiveNode <= 2 * |stored| - 1
      ensures stored == map[] ==> numActiveNode == 0
    {
      assert G().Keys == nodes;
      NodeCount(G(), head, maxbits, stored);
    }

    /** A fresh insert followed by the removal of its node. `g`, `top` and `mid` are the trie and the map in between: there the new
        prefix is on `node`, and all other data are where they were. In the end the map, the bit strings of the nodes and their
        number are as before. */
    method LookupThenRemove(p: Prefix) returns (node: Node, ghost g: Graph, ghost top: Node?, ghost mid: map<Bits, Node>)
      requires Valid() && p.bitlen <= maxbits && Key(p) !in stored
      modifies this, nodes
      ensures mid == old(stored)[Key(p) := node] && WF(g, top, maxbits) && Represents(g, mid)
      ensures node in g && g[node].prefix == Some(p) && g[node].data == null
      ensures DataKept(old(G()), g) && DataKeptExcept(g, G(), node)
      ensures Valid() && stored == mid - {Key(p)} == old(stored)
      ensures forall k :: HasNode(G(), k) <==> HasNode(old(G()), k)
      ensures numActiveNode == old(numActiveNode)
    {
      hide WF, Represents, HasNode, Key, DataKept, DataKeptExcept;
      ghost var g0, head0 := G(), head;
      assert |g0| == |nodes| by { assert g0.Keys == nodes; }
      node := Lookup(p);
      g, top, mid := G(), head, stored;
      Remove(node);
      assert stored == old(stored);
      ShapeAs(g0, head0);
    }

    /** A trie for the same map has nodes for the same bit strings, and as many. */
    lemma ShapeAs(g: Graph, top: Node?)
      requires Valid() && WF(g, top, maxbits) && Represents(g, stored)
      ensures forall k :: HasNode(G(), k) <==> HasNode(g, k)
      ensures |nodes| == |g|
    {
      hide WF, Represents, HasNode;
      forall k
        ensures HasNode(G(), k) <==> HasNode(g, k)
      {
        SameNodes(G(), head, g, top, maxbits, stored, stored, k);
      }
      assert G().Keys == nodes;
      SameKeysSameSize(G(), head, g, top, maxbits, stored, stored);
    }
  }

  /** A request to the trie. */
  datatype Request = Insert(p: Prefix) | Delete(p: Prefix)

  /** The same requests on a plain set of bit strings. */
  ghost function Outcome(keys: set<Bits>, rs: seq<Request>): set<Bits>
    requires forall r :: r in rs ==> r.p.bitlen <= ADDR_BITS
  {
    if rs == [] then keys
    else
      var before := Outcome(keys, rs[..|rs| - 1]);
      match rs[|rs| - 1]
      case Insert(p) => before + {Key(p)}
      case Delete(p) => before - {Key(p)}
  }

  /** Every run of inserts and removes leaves a valid trie that stands for the expected set of prefixes. */
  method Run(maxbits: nat, rs: seq<Request>) returns (t: Tree)
    requires maxbits <= PATRICIA_MAXBITS && forall r :: r in rs ==> r.p.bitlen <= maxbits
    ensures t.Valid() && t.maxbits == maxbits && t.stored.Keys == Outcome({}, rs)
  {
    hide WF, Represents, Key, DataKept, DataKeptExcept;
    t := new Tree(maxbits);
    for i := 0 to |rs|
      invariant t.Valid() && t.maxbits == maxbits && fresh(t) && fresh(t.nodes)
      invariant t.stored.Keys == Outcome({}, rs[..i])
    {
      assert rs[..i + 1][..i] == rs[..i];
      assert rs[i] in rs;
      match rs[i]
      case Insert(p) =>
        var _ := t.Lookup(p);
      case Delete(p) =>
        var node := t.SearchExact(p);
        if node != null {
          t.StoredNode(Key(p));
          t.Remove(node);
        }
    }
    assert rs[..|rs|] == rs;
  }
}
