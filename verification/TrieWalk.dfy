/**
 Whole-trie facts: the order in which the walks visit the nodes, how many nodes there are, and that the set of
 nodes is determined by the set of stored prefixes alone.
 */
module TrieWalk {
  import opened Wrappers
  import opened AddressBits
  import opened TrieGraph

  /** Node, left subtree, right subtree: the order of PATRICIA_WALK and Clear_Patricia. */
  ghost function Preorder(g: Graph, head: Node?, maxbits: nat, n: Node?): seq<Node>
    requires WF(g, head, maxbits) && (n != null ==> n in g)
    decreases if n == null then 0 else 1 + maxbits - |g[n].path|
  {
    if n == null then []
    else
      assert NodeOk(g, n, maxbits);
      assert g[n].l != null ==> NodeOk(g, g[n].l, maxbits);
      assert g[n].r != null ==> NodeOk(g, g[n].r, maxbits);
      [n] + Preorder(g, head, maxbits, g[n].l) + Preorder(g, head, maxbits, g[n].r)
  }

  ghost predicate NoDup<T>(s: seq<T>) {
    forall i, j :: 0 <= i < j < |s| ==> s[i] != s[j]
  }

  lemma {:induction false} NoDupSize<T>(s: seq<T>, S: set<T>)
    requires NoDup(s) && (forall x :: x in s <==> x in S)
    ensures |s| == |S|
  {
    if s == [] {
      assert S == {};
    } else {
      var x, rest := s[0], s[1..];
      forall y
        ensures y in rest <==> y in S - {x}
      {
        if y in rest {
          var i :| 0 <= i < |rest| && rest[i] == y;
          assert s[i + 1] == y;
        }
      }
      NoDupSize(rest, S - {x});
    }
  }

  lemma ChildrenInGraph(g: Graph, head: Node?, maxbits: nat, n: Node)
    requires WF(g, head, maxbits) && n in g
    ensures |g[n].path| <= maxbits
    ensures g[n].l != null ==> g[n].l in g && g[g[n].l].parent == n && |g[n].path| < |g[g[n].l].path| <= maxbits
    ensures g[n].r != null ==> g[n].r in g && g[g[n].r].parent == n && |g[n].path| < |g[g[n].r].path| <= maxbits
  {
    assert NodeOk(g, n, maxbits);
    if g[n].l != null {
      assert NodeOk(g, g[n].l, maxbits);
    }
    if g[n].r != null {
      assert NodeOk(g, g[n].r, maxbits);
    }
  }

  /** The preorder from `n` lists exactly the nodes below `n`. */
  lemma {:induction false} PreorderIsBelow(g: Graph, head: Node?, maxbits: nat, n: Node, x: Node)
    requires WF(g, head, maxbits) && n in g && x in g
    ensures x in Preorder(g, head, maxbits, n) <==> Below(g, head, maxbits, x, n)
    decreases maxbits - |g[n].path|
  {
    ChildrenInGraph(g, head, maxbits, n);
    var l, r := g[n].l, g[n].r;
    if l != null {
      PreorderIsBelow(g, head, maxbits, l, x);
      if Below(g, head, maxbits, x, l) {
        assert Below(g, head, maxbits, l, n);
        BelowTrans(g, head, maxbits, x, l, n);
      }
    }
    if r != null {
      PreorderIsBelow(g, head, maxbits, r, x);
      if Below(g, head, maxbits, x, r) {
        assert Below(g, head, maxbits, r, n);
        BelowTrans(g, head, maxbits, x, r, n);
      }
    }
    if Below(g, head, maxbits, x, n) && x != n {
      BelowChild(g, head, maxbits, x, n);
    }
  }

  lemma {:induction false} PreorderInGraph(g: Graph, head: Node?, maxbits: nat, n: Node?)
    requires WF(g, head, maxbits) && (n != null ==> n in g)
    ensures forall x :: x in Preorder(g, head, maxbits, n) ==> x in g
    decreases if n == null then 0 else 1 + maxbits - |g[n].path|
  {
    if n != null {
      ChildrenInGraph(g, head, maxbits, n);
      PreorderInGraph(g, head, maxbits, g[n].l);
      PreorderInGraph(g, head, maxbits, g[n].r);
    }
  }

  lemma SubtreesApart(g: Graph, head: Node?, maxbits: nat, n: Node, x: Node)
    requires WF(g, head, maxbits) && n in g && x in g && g[n].l != null && g[n].r != null
    ensures g[n].l in g && g[n].r in g
    ensures !(Below(g, head, maxbits, x, g[n].l) && Below(g, head, maxbits, x, g[n].r))
  {
    ChildrenInGraph(g, head, maxbits, n);
    assert NodeOk(g, n, maxbits);
    if Below(g, head, maxbits, x, g[n].l) && Below(g, head, maxbits, x, g[n].r) {
      BelowPath(g, head, maxbits, x, g[n].l);
      BelowPath(g, head, maxbits, x, g[n].r);
    }
  }

  lemma NoDupConcat<T>(a: seq<T>, b: seq<T>)
    requires NoDup(a) && NoDup(b) && forall x :: !(x in a && x in b)
    ensures NoDup(a + b)
  {
    forall i, j | 0 <= i < j < |a + b|
      ensures (a + b)[i] != (a + b)[j]
    {
      if i < |a| && j >= |a| {
        assert a[i] in a && b[j - |a|] in b;
      }
    }
  }

  lemma {:induction false} PreorderNoDup(g: Graph, head: Node?, maxbits: nat, n: Node?)
    requires WF(g, head, maxbits) && (n != null ==> n in g)
    ensures NoDup(Preorder(g, head, maxbits, n))
    decreases if n == null then 0 else 1 + maxbits - |g[n].path|
  {
    if n != null {
      ChildrenInGraph(g, head, maxbits, n);
      var l, r := g[n].l, g[n].r;
      var a, b := Preorder(g, head, maxbits, l), Preorder(g, head, maxbits, r);
      PreorderNoDup(g, head, maxbits, l);
      PreorderNoDup(g, head, maxbits, r);
      PreorderInGraph(g, head, maxbits, l);
      PreorderInGraph(g, head, maxbits, r);
      forall x
        ensures !(x in [n] && x in a)
        ensures !(x in [n] + a && x in b)
      {
        if x in a {
          PreorderIsBelow(g, head, maxbits, l, x);
          BelowPath(g, head, maxbits, x, l);
        }
        if x in b {
          PreorderIsBelow(g, head, maxbits, r, x);
          BelowPath(g, head, maxbits, x, r);
        }
        if x in a && x in b {
          SubtreesApart(g, head, maxbits, n, x);
        }
      }
      NoDupConcat([n], a);
      NoDupConcat([n] + a, b);
    }
  }

  /** A walk from the head meets every node of the trie exactly once. */
  lemma WalkVisitsAllOnce(g: Graph, head: Node?, maxbits: nat)
    requires WF(g, head, maxbits)
    ensures NoDup(Preorder(g, head, maxbits, head))
    ensures forall x :: x in Preorder(g, head, maxbits, head) <==> x in g
    ensures |Preorder(g, head, maxbits, head)| == |g|
  {
    PreorderNoDup(g, head, maxbits, head);
    PreorderInGraph(g, head, maxbits, head);
    forall x | x in g
      ensures x in Preorder(g, head, maxbits, head)
    {
      BelowHead(g, head, maxbits, x);
      PreorderIsBelow(g, head, maxbits, head, x);
    }
    NoDupSize(Preorder(g, head, maxbits, head), g.Keys);
  }

  /** What a walk with stack `stack` (top last) still has to visit after the current subtree. */
  ghost function Pending(g: Graph, head: Node?, maxbits: nat, stack: seq<Node>): seq<Node>
    requires WF(g, head, maxbits) && forall x :: x in stack ==> x in g
  {
    if stack == [] then []
    else Preorder(g, head, maxbits, stack[|stack| - 1]) + Pending(g, head, maxbits, stack[..|stack| - 1])
  }

  /** A walk in progress: the stack holds right children, each deeper than its own position. */
  ghost predicate WalkOk(g: Graph, stack: seq<Node>, node: Node?) {
    && (forall i {:trigger stack[i]} :: 0 <= i < |stack| ==> stack[i] in g && i < |g[stack[i]].path|)
    && (node != null ==> node in g && |stack| <= |g[node].path|)
    && (node == null ==> stack == [])
  }

  ghost function Todo(g: Graph, head: Node?, maxbits: nat, stack: seq<Node>, node: Node?): seq<Node>
    requires WF(g, head, maxbits) && WalkOk(g, stack, node)
  {
    Preorder(g, head, maxbits, node) + Pending(g, head, maxbits, stack)
  }

  /** PATRICIA_WALK_END: the next node and the next stack. */
  function NextOf(l: Node?, r: Node?, stack: seq<Node>): (Node?, seq<Node>) {
    if l != null then (l, if r != null then stack + [r] else stack)
    else if r != null then (r, stack)
    else if stack != [] then (stack[|stack| - 1], stack[..|stack| - 1])
    else (null, [])
  }

  lemma WalkStart(g: Graph, head: Node?, maxbits: nat)
    requires WF(g, head, maxbits)
    ensures WalkOk(g, [], head) && Todo(g, head, maxbits, [], head) == Preorder(g, head, maxbits, head)
  {
  }

  lemma WalkDone(g: Graph, head: Node?, maxbits: nat)
    requires WF(g, head, maxbits)
    ensures WalkOk(g, [], null) && Todo(g, head, maxbits, [], null) == []
  {
  }

  lemma WalkStepOk(g: Graph, head: Node?, maxbits: nat, stack: seq<Node>, node: Node)
    requires WF(g, head, maxbits) && WalkOk(g, stack, node)
    ensures var (node', stack') := NextOf(g[node].l, g[node].r, stack);
            WalkOk(g, stack', node') && |stack'| <= maxbits
  {
    ChildrenInGraph(g, head, maxbits, node);
    if stack != [] {
      ChildrenInGraph(g, head, maxbits, stack[|stack| - 1]);
    }
  }

  lemma PendingPush(g: Graph, head: Node?, maxbits: nat, stack: seq<Node>, r: Node)
    requires WF(g, head, maxbits) && r in g && forall x :: x in stack ==> x in g
    ensures forall x :: x in stack + [r] ==> x in g
    ensures Pending(g, head, maxbits, stack + [r]) == Preorder(g, head, maxbits, r) + Pending(g, head, maxbits, stack)
  {
    assert (stack + [r])[..|stack|] == stack;
  }

  lemma TodoSplit(g: Graph, head: Node?, maxbits: nat, stack: seq<Node>, node: Node)
    requires WF(g, head, maxbits) && WalkOk(g, stack, node)
    ensures (g[node].l != null ==> g[node].l in g) && (g[node].r != null ==> g[node].r in g)
    ensures Todo(g, head, maxbits, stack, node)
            == [node] + (Preorder(g, head, maxbits, g[node].l)
                         + (Preorder(g, head, maxbits, g[node].r) + Pending(g, head, maxbits, stack)))
  {
    ChildrenInGraph(g, head, maxbits, node);
  }

  /** One step of a walk takes exactly the current node off the work list, within `maxbits` stack entries. */
  lemma WalkStep(g: Graph, head: Node?, maxbits: nat, stack: seq<Node>, node: Node)
    requires WF(g, head, maxbits) && WalkOk(g, stack, node)
    ensures var (node', stack') := NextOf(g[node].l, g[node].r, stack);
            WalkOk(g, stack', node') && |stack'| <= maxbits
            && Todo(g, head, maxbits, stack, node) == [node] + Todo(g, head, maxbits, stack', node')
  {
    hide WF;
    WalkStepOk(g, head, maxbits, stack, node);
    TodoSplit(g, head, maxbits, stack, node);
    var l, r, p := g[node].l, g[node].r, Pending(g, head, maxbits, stack);
    if l != null {
      if r != null {
        PendingPush(g, head, maxbits, stack, r);
      } else {
        assert [] + p == p;
      }
    } else if r != null {
      var b := Preorder(g, head, maxbits, r);
      assert [] + (b + p) == b + p;
    } else {
      assert [] + ([] + p) == p;
      assert stack == [] ==> p + [] == p;
    }
  }

  ghost function Elems<T>(s: seq<T>): set<T> {
    set x | x in s
  }

  lemma WalkNode(g: Graph, stack: seq<Node>, node: Node)
    requires WalkOk(g, stack, node)
    ensures node in g
  {
  }

  /** The next node to be taken off the work list has not been visited before. */
  lemma VisitOnce(g: Graph, head: Node?, maxbits: nat, done: seq<Node>, n: Node, rest: seq<Node>)
    requires WF(g, head, maxbits) && done + ([n] + rest) == Preorder(g, head, maxbits, head)
    ensures n !in done && n in g
    ensures g.Keys - Elems(done + [n]) == g.Keys - Elems(done) - {n}
  {
    WalkVisitsAllOnce(g, head, maxbits);
    var all := Preorder(g, head, maxbits, head);
    assert all[|done|] == n;
    forall i | 0 <= i < |done|
      ensures done[i] != n
    {
      assert all[i] == done[i];
    }
  }

  lemma HoldingNothing(g: Graph)
    ensures Holding(g, []) == []
  {
  }

  lemma AllVisited(g: Graph, head: Node?, maxbits: nat)
    requires WF(g, head, maxbits)
    ensures g.Keys - Elems(Preorder(g, head, maxbits, head)) == {}
  {
    WalkVisitsAllOnce(g, head, maxbits);
  }

  /** Clear_Patricia in progress: `ns` are the nodes not yet freed. */
  ghost predicate ClearOk(g: Graph, head: Node?, maxbits: nat, stack: seq<Node>, node: Node?, freed: seq<Node>, ns: set<Node>)
    requires WF(g, head, maxbits)
  {
    && WalkOk(g, stack, node) && |stack| <= maxbits
    && freed + Todo(g, head, maxbits, stack, node) == Preorder(g, head, maxbits, head)
    && ns == g.Keys - Elems(freed)
  }

  lemma ClearStart(g: Graph, head: Node?, maxbits: nat)
    requires WF(g, head, maxbits)
    ensures ClearOk(g, head, maxbits, [], head, [], g.Keys) && (head != null ==> head in g)
  {
  }

  lemma ClearStep(g: Graph, head: Node?, maxbits: nat, stack: seq<Node>, node: Node, freed: seq<Node>, ns: set<Node>)
    requires WF(g, head, maxbits) && ClearOk(g, head, maxbits, stack, node, freed, ns)
    ensures node in g && node in ns && freed < Preorder(g, head, maxbits, head)
    ensures var (node', stack') := NextOf(g[node].l, g[node].r, stack);
            ClearOk(g, head, maxbits, stack', node', freed + [node], ns - {node})
  {
    hide WF, WalkOk, Preorder, Todo;
    WalkNode(g, stack, node);
    WalkStep(g, head, maxbits, stack, node);
    var next := NextOf(g[node].l, g[node].r, stack);
    var rest := Todo(g, head, maxbits, next.1, next.0);
    VisitOnce(g, head, maxbits, freed, node, rest);
    assert freed + ([node] + rest) == freed + [node] + rest;
  }

  lemma ClearDone(g: Graph, head: Node?, maxbits: nat, stack: seq<Node>, freed: seq<Node>, ns: set<Node>)
    requires WF(g, head, maxbits) && ClearOk(g, head, maxbits, stack, null, freed, ns)
    ensures freed == Preorder(g, head, maxbits, head) && ns == {}
  {
    WalkDone(g, head, maxbits);
    assert freed + [] == freed;
    AllVisited(g, head, maxbits);
  }

  // ---- node count ----------------------------------------------------------------------------------

  /** The nodes of `s` that hold a prefix, in order. */
  ghost function Holding(g: Graph, s: seq<Node>): seq<Node> {
    if s == [] then [] else Self(g, s[0]) + Holding(g, s[1..])
  }

  ghost function Self(g: Graph, n: Node): seq<Node> {
    if n in g && g[n].prefix.Some? then [n] else []
  }

  lemma {:induction false} HoldingConcat(g: Graph, a: seq<Node>, b: seq<Node>)
    ensures Holding(g, a + b) == Holding(g, a) + Holding(g, b)
  {
    if a == [] {
      assert a + b == b;
    } else {
      assert (a + b)[1..] == a[1..] + b;
      HoldingConcat(g, a[1..], b);
    }
  }

  lemma HoldingSnoc(g: Graph, s: seq<Node>, n: Node)
    ensures Holding(g, s + [n]) == Holding(g, s) + Self(g, n)
  {
    HoldingConcat(g, s, [n]);
  }

  /** Left subtree, node, right subtree, without the glue nodes: the order of patricia_walk_inorder. */
  ghost function Inorder(g: Graph, head: Node?, maxbits: nat, n: Node?): seq<Node>
    requires WF(g, head, maxbits) && (n != null ==> n in g)
    decreases if n == null then 0 else 1 + maxbits - |g[n].path|
  {
    if n == null then []
    else
      ChildrenInGraph(g, head, maxbits, n);
      Inorder(g, head, maxbits, g[n].l) + (if g[n].prefix.Some? then [n] else []) + Inorder(g, head, maxbits, g[n].r)
  }

  lemma MultisetSwap<T>(x: seq<T>, mid: seq<T>, y: seq<T>, a: seq<T>, b: seq<T>)
    requires multiset(x) == multiset(a) && multiset(y) == multiset(b)
    ensures multiset(x + mid + y) == multiset(mid + a + b)
  {
  }

  /** The in-order walk reports the same nodes as the preorder walk. */
  lemma {:induction false} InorderIsPermutation(g: Graph, head: Node?, maxbits: nat, n: Node?)
    requires WF(g, head, maxbits) && (n != null ==> n in g)
    ensures multiset(Inorder(g, head, maxbits, n)) == multiset(Holding(g, Preorder(g, head, maxbits, n)))
    decreases if n == null then 0 else 1 + maxbits - |g[n].path|
  {
    if n != null {
      ChildrenInGraph(g, head, maxbits, n);
      InorderUnfold(g, head, maxbits, n);
      HoldingUnfold(g, head, maxbits, n);
      hide WF, Preorder, Inorder, Holding;
      var l, r := g[n].l, g[n].r;
      InorderIsPermutation(g, head, maxbits, l);
      InorderIsPermutation(g, head, maxbits, r);
      MultisetSwap(Inorder(g, head, maxbits, l), Self(g, n), Inorder(g, head, maxbits, r),
                   Holding(g, Preorder(g, head, maxbits, l)), Holding(g, Preorder(g, head, maxbits, r)));
    }
  }

  lemma InorderUnfold(g: Graph, head: Node?, maxbits: nat, n: Node)
    requires WF(g, head, maxbits) && n in g && (g[n].l != null ==> g[n].l in g) && (g[n].r != null ==> g[n].r in g)
    ensures Inorder(g, head, maxbits, n)
            == Inorder(g, head, maxbits, g[n].l) + Self(g, n) + Inorder(g, head, maxbits, g[n].r)
  {
  }

  lemma HoldingUnfold(g: Graph, head: Node?, maxbits: nat, n: Node)
    requires WF(g, head, maxbits) && n in g && (g[n].l != null ==> g[n].l in g) && (g[n].r != null ==> g[n].r in g)
    ensures Holding(g, Preorder(g, head, maxbits, n))
            == Self(g, n) + Holding(g, Preorder(g, head, maxbits, g[n].l)) + Holding(g, Preorder(g, head, maxbits, g[n].r))
  {
    var a, b := Preorder(g, head, maxbits, g[n].l), Preorder(g, head, maxbits, g[n].r);
    HoldingConcat(g, [n], a);
    HoldingConcat(g, [n] + a, b);
  }

  /** The data the nodes of `s` carry, in order. */
  ghost function DataOf(g: Graph, s: seq<Node>): seq<object> {
    if s == [] then []
    else
      var n := s[|s| - 1];
      DataOf(g, s[..|s| - 1]) + (if n in g && g[n].prefix.Some? && g[n].data != null then [g[n].data] else [])
  }

  lemma DataOfNothing(g: Graph)
    ensures DataOf(g, []) == []
  {
  }

  lemma DataOfSnoc(g: Graph, s: seq<Node>, n: Node)
    requires n in g
    ensures DataOf(g, s + [n]) == DataOf(g, s) + if g[n].prefix.Some? && g[n].data != null then [g[n].data] else []
  {
    assert (s + [n])[..|s|] == s;
  }

  lemma {:induction false} HoldingMembers(g: Graph, s: seq<Node>)
    requires NoDup(s)
    ensures forall x :: x in Holding(g, s) <==> x in s && x in g && g[x].prefix.Some?
    ensures NoDup(Holding(g, s))
  {
    if s != [] {
      HoldingMembers(g, s[1..]);
      assert s[0] !in s[1..];
      NoDupConcat(Self(g, s[0]), Holding(g, s[1..]));
    }
  }

  /** At most one glue node per prefix but the last. */
  lemma {:induction false} MostlyHolding(g: Graph, head: Node?, maxbits: nat, n: Node)
    requires WF(g, head, maxbits) && n in g
    ensures |Preorder(g, head, maxbits, n)| + 1 <= 2 * |Holding(g, Preorder(g, head, maxbits, n))|
    decreases maxbits - |g[n].path|
  {
    ChildrenInGraph(g, head, maxbits, n);
    assert NodeOk(g, n, maxbits);
    var l, r := g[n].l, g[n].r;
    var a, b := Preorder(g, head, maxbits, l), Preorder(g, head, maxbits, r);
    if l != null {
      MostlyHolding(g, head, maxbits, l);
    }
    if r != null {
      MostlyHolding(g, head, maxbits, r);
    }
    HoldingConcat(g, [n], a);
    HoldingConcat(g, [n] + a, b);
  }

  ghost function Paths(g: Graph, s: seq<Node>): (ps: seq<Bits>)
    requires forall x :: x in s ==> x in g
    ensures |ps| == |s| && forall i :: 0 <= i < |s| ==> ps[i] == g[s[i]].path
  {
    seq(|s|, i requires 0 <= i < |s| => g[s[i]].path)
  }

  lemma PathsDiffer(g: Graph, head: Node?, maxbits: nat, n: Node, m: Node)
    requires WF(g, head, maxbits) && n in g && m in g && n != m
    ensures g[n].path != g[m].path
  {
    if g[n].path == g[m].path {
      PathsUnique(g, head, maxbits, n, m);
    }
  }

  /** At most 2P - 1 nodes for P >= 1 stored prefixes. */
  lemma NodeCount(g: Graph, head: Node?, maxbits: nat, m: map<Bits, Node>)
    requires WF(g, head, maxbits) && Represents(g, m)
    ensures m != map[] ==> |g| <= 2 * |m| - 1
    ensures m == map[] ==> g == map[]
  {
    WalkVisitsAllOnce(g, head, maxbits);
    if head != null {
      var all := Preorder(g, head, maxbits, head);
      MostlyHolding(g, head, maxbits, head);
      HoldingMembers(g, all);
      var holding := Holding(g, all);
      var keys := Paths(g, holding);
      forall k
        ensures k in keys <==> k in m.Keys
      {
        if k in m {
          assert m[k] in holding;
          var i :| 0 <= i < |holding| && holding[i] == m[k];
          assert keys[i] == k;
        }
      }
      forall i, j | 0 <= i < j < |keys|
        ensures keys[i] != keys[j]
      {
        assert holding[i] in holding && holding[j] in holding;
        PathsDiffer(g, head, maxbits, holding[i], holding[j]);
      }
      NoDupSize(keys, m.Keys);
    }
  }

  // ---- canonical shape -----------------------------------------------------------------------------

  /** Two stored prefixes part ways right behind `k`. */
  ghost predicate BranchPoint(keys: set<Bits>, k: Bits) {
    exists a, b :: a in keys && b in keys && Extends(a, k, false) && Extends(b, k, true)
  }

  ghost predicate HasNode(g: Graph, k: Bits) {
    exists n :: n in g && g[n].path == k
  }

  lemma {:induction false} HoldingBelow(g: Graph, head: Node?, maxbits: nat, n: Node) returns (x: Node)
    requires WF(g, head, maxbits) && n in g
    ensures x in g && g[x].prefix.Some? && Below(g, head, maxbits, x, n)
    decreases maxbits - |g[n].path|
  {
    if g[n].prefix.Some? {
      x := n;
    } else {
      ChildrenInGraph(g, head, maxbits, n);
      assert NodeOk(g, n, maxbits);
      x := HoldingBelow(g, head, maxbits, g[n].l);
      assert Below(g, head, maxbits, g[n].l, n);
      BelowTrans(g, head, maxbits, x, g[n].l, n);
    }
  }

  lemma GlueIsBranchPoint(g: Graph, head: Node?, maxbits: nat, m: map<Bits, Node>, n: Node)
    requires WF(g, head, maxbits) && Represents(g, m) && n in g && g[n].prefix.None?
    ensures BranchPoint(m.Keys, g[n].path)
  {
    ChildrenInGraph(g, head, maxbits, n);
    assert NodeOk(g, n, maxbits);
    var x := HoldingBelow(g, head, maxbits, g[n].l);
    var y := HoldingBelow(g, head, maxbits, g[n].r);
    BelowPath(g, head, maxbits, x, g[n].l);
    BelowPath(g, head, maxbits, y, g[n].r);
    ExtendsLonger(g[x].path, g[g[n].l].path, g[n].path, false);
    ExtendsLonger(g[y].path, g[g[n].r].path, g[n].path, true);
    assert g[x].path in m.Keys && g[y].path in m.Keys;
  }

  /** Two strings that part behind `k` have no common prefix longer than `k`. */
  lemma NotBehind(k: Bits, x: Bits, y: Bits, t: Bits)
    requires Extends(x, k, false) && Extends(y, k, true) && t <= x && t <= y
    ensures |t| <= |k|
  {
  }

  lemma {:induction false} BranchHasNode(g: Graph, head: Node?, maxbits: nat, k: Bits, x: Node, y: Node, top: Node)
    requires WF(g, head, maxbits) && x in g && y in g && top in g
    requires Extends(g[x].path, k, false) && Extends(g[y].path, k, true)
    requires Below(g, head, maxbits, x, top) && Below(g, head, maxbits, y, top)
    ensures HasNode(g, k)
    decreases maxbits - |g[top].path|
  {
    ChildrenInGraph(g, head, maxbits, top);
    BelowPath(g, head, maxbits, x, top);
    BelowPath(g, head, maxbits, y, top);
    var t := |g[top].path|;
    NotBehind(k, g[x].path, g[y].path, g[top].path);
    if t == |k| {
      assert g[top].path == g[x].path[..t] == k;
    } else if t < |k| {
      BelowChild(g, head, maxbits, x, top);
      BelowChild(g, head, maxbits, y, top);
      assert g[x].path[t] == g[x].path[..|k|][t] == k[t];
      assert g[y].path[t] == g[y].path[..|k|][t] == k[t];
      var c := Child(g, top, k[t]);
      BranchHasNode(g, head, maxbits, k, x, y, c);
    }
  }

  /** The trie has a node for `k` exactly when `k` is stored or two stored prefixes part ways behind it: the
      shape does not depend on the order of insertions and removals. */
  lemma ShapeIsCanonical(g: Graph, head: Node?, maxbits: nat, m: map<Bits, Node>, k: Bits)
    requires WF(g, head, maxbits) && Represents(g, m)
    ensures HasNode(g, k) <==> k in m || BranchPoint(m.Keys, k)
  {
    if HasNode(g, k) {
      var n :| n in g && g[n].path == k;
      if g[n].prefix.None? {
        GlueIsBranchPoint(g, head, maxbits, m, n);
      }
    }
    if k in m {
      assert m[k] in g && g[m[k]].path == k;
    }
    if BranchPoint(m.Keys, k) {
      var a, b :| a in m.Keys && b in m.Keys && Extends(a, k, false) && Extends(b, k, true);
      BelowHead(g, head, maxbits, m[a]);
      BelowHead(g, head, maxbits, m[b]);
      BranchHasNode(g, head, maxbits, k, m[a], m[b], head);
    }
  }

  /** The bit string of a child, if there is one. */
  ghost function ChildPath(g: Graph, n: Node, side: bool): Option<Bits>
    requires n in g && (Child(g, n, side) != null ==> Child(g, n, side) in g)
  {
    var c := Child(g, n, side);
    if c == null then None else Some(g[c].path)
  }

  /** Two tries for the same prefixes have nodes for the same bit strings. */
  lemma SameNodes(g: Graph, head: Node?, g': Graph, head': Node?, maxbits: nat, m: map<Bits, Node>, m': map<Bits, Node>, k: Bits)
    requires WF(g, head, maxbits) && Represents(g, m) && WF(g', head', maxbits) && Represents(g', m') && m.Keys == m'.Keys
    ensures HasNode(g, k) <==> HasNode(g', k)
  {
    hide WF, Represents, HasNode, BranchPoint;
    ShapeIsCanonical(g, head, maxbits, m, k);
    ShapeIsCanonical(g', head', maxbits, m', k);
  }

  /** A child in one trie is a child in the other, with the same bit string. */
  lemma ChildFound(g: Graph, head: Node?, g': Graph, head': Node?, maxbits: nat, n: Node, n': Node, side: bool)
    requires WF(g, head, maxbits) && WF(g', head', maxbits) && (forall k :: HasNode(g, k) <==> HasNode(g', k))
    requires n in g && n' in g' && g[n].path == g'[n'].path && Child(g, n, side) != null
    ensures Child(g, n, side) in g && Child(g', n', side) != null && Child(g', n', side) in g'
    ensures g'[Child(g', n', side)].path == g[Child(g, n, side)].path
  {
    assert NodeOk(g, n, maxbits);
    var c := Child(g, n, side);
    var pc, t := g[c].path, |g[n].path|;
    assert HasNode(g, pc);
    var c' :| c' in g' && g'[c'].path == pc;
    OnPath(g', head', maxbits, c', n');
    BelowChild(g', head', maxbits, c', n');
    var d' := Child(g', n', side);
    BelowPath(g', head', maxbits, c', d');
    assert NodeOk(g', n', maxbits);
    assert HasNode(g', g'[d'].path);
    var d :| d in g && g[d].path == g'[d'].path;
    OnPath(g, head, maxbits, d, n);
    BelowChild(g, head, maxbits, d, n);
    BelowPath(g, head, maxbits, d, c);
  }

  /** Two tries for the same prefixes are the same tree: nodes with the same bit string hold a prefix in both or in neither, and have
      the same children. */
  lemma SameKeysSameTree(g: Graph, head: Node?, g': Graph, head': Node?, maxbits: nat, m: map<Bits, Node>, m': map<Bits, Node>, n: Node, n': Node, side: bool)
    requires WF(g, head, maxbits) && Represents(g, m) && WF(g', head', maxbits) && Represents(g', m') && m.Keys == m'.Keys
    requires n in g && n' in g' && g[n].path == g'[n'].path
    ensures g[n].prefix.Some? <==> g'[n'].prefix.Some?
    ensures Child(g, n, side) != null ==> Child(g, n, side) in g
    ensures Child(g', n', side) != null ==> Child(g', n', side) in g'
    ensures ChildPath(g, n, side) == ChildPath(g', n', side)
  {
    forall k
      ensures HasNode(g, k) <==> HasNode(g', k)
    {
      SameNodes(g, head, g', head', maxbits, m, m', k);
    }
    SamePrefixed(g, head, g', head', maxbits, m, m', n, n');
    ChildrenInGraph(g, head, maxbits, n);
    ChildrenInGraph(g', head', maxbits, n');
    hide WF, Represents, HasNode;
    if Child(g, n, side) != null {
      ChildFound(g, head, g', head', maxbits, n, n', side);
    }
    if Child(g', n', side) != null {
      ChildFound(g', head', g, head, maxbits, n', n, side);
    }
  }

  lemma SamePrefixed(g: Graph, head: Node?, g': Graph, head': Node?, maxbits: nat, m: map<Bits, Node>, m': map<Bits, Node>, n: Node, n': Node)
    requires WF(g, head, maxbits) && Represents(g, m) && WF(g', head', maxbits) && Represents(g', m') && m.Keys == m'.Keys
    requires n in g && n' in g' && g[n].path == g'[n'].path
    ensures g[n].prefix.Some? <==> g'[n'].prefix.Some?
  {
    var k := g[n].path;
    if k in m {
      PathsUnique(g, head, maxbits, n, m[k]);
      PathsUnique(g', head', maxbits, n', m'[k]);
    }
  }

  /** And so they have as many nodes. */
  lemma SameKeysSameSize(g: Graph, head: Node?, g': Graph, head': Node?, maxbits: nat, m: map<Bits, Node>, m': map<Bits, Node>)
    requires WF(g, head, maxbits) && Represents(g, m) && WF(g', head', maxbits) && Represents(g', m') && m.Keys == m'.Keys
    ensures |g| == |g'|
  {
    hide WF, Represents, HasNode;
    forall k
      ensures HasNode(g, k) <==> HasNode(g', k)
    {
      SameNodes(g, head, g', head', maxbits, m, m', k);
    }
    PathSetSize(g, head, maxbits);
    PathSetSize(g', head', maxbits);
    SamePathSet(g, g');
  }

  ghost function PathSet(g: Graph): set<Bits> {
    set n | n in g :: g[n].path
  }

  lemma SamePathSet(g: Graph, g': Graph)
    requires forall k :: HasNode(g, k) <==> HasNode(g', k)
    ensures PathSet(g) == PathSet(g')
  {
    forall k
      ensures k in PathSet(g) <==> k in PathSet(g')
    {
      assert HasNode(g, k) <==> HasNode(g', k);
    }
  }

  lemma PathSetSize(g: Graph, head: Node?, maxbits: nat)
    requires WF(g, head, maxbits)
    ensures |PathSet(g)| == |g|
  {
    WalkVisitsAllOnce(g, head, maxbits);
    var all := Preorder(g, head, maxbits, head);
    var ps := Paths(g, all);
    forall k
      ensures k in ps <==> k in PathSet(g)
    {
      if k in PathSet(g) {
        var n :| n in g && g[n].path == k;
        var i :| 0 <= i < |all| && all[i] == n;
        assert ps[i] == k;
      }
    }
    forall i, j | 0 <= i < j < |ps|
      ensures ps[i] != ps[j]
    {
      assert all[i] in all && all[j] in all;
      PathsDiffer(g, head, maxbits, all[i], all[j]);
    }
    NoDupSize(ps, PathSet(g));
    NoDupSize(all, g.Keys);
  }
}
