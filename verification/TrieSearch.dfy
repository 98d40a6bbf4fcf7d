/**
 Longest-prefix match over a set of bit strings, the linear scan that computes it, and why the stack of
 patricia_search_best2 always holds the answer.
 */
module TrieSearch {
  import opened Wrappers
  import opened AddressBits
  import opened TrieGraph

  /** A stored prefix `k` covers the query `q` (and is strictly shorter when the query itself is excluded). */
  predicate Matches(k: Bits, q: Bits, inclusive: bool) {
    k <= q && (inclusive || |k| < |q|)
  }

  /** `r` is the longest member of `keys` that matches: the rule of section 5.2.4.3 of RFC 1812. */
  ghost predicate IsBest(keys: set<Bits>, q: Bits, inclusive: bool, r: Option<Bits>) {
    match r
    case None => forall k :: k in keys ==> !Matches(k, q, inclusive)
    case Some(b) => b in keys && Matches(b, q, inclusive)
                    && forall k :: k in keys && Matches(k, q, inclusive) ==> |k| <= |b|
  }

  lemma BestIsUnique(keys: set<Bits>, q: Bits, inclusive: bool, r: Option<Bits>, r': Option<Bits>)
    requires IsBest(keys, q, inclusive, r) && IsBest(keys, q, inclusive, r')
    ensures r == r'
  {
    if r.Some? && r'.Some? {
      assert r.value == q[..|r.value|] && r'.value == q[..|r'.value|];
    }
  }

  /** Reference: look at every prefix once and keep the longest that matches. */
  function LinearScan(ks: seq<Bits>, q: Bits, inclusive: bool): Option<Bits> {
    if ks == [] then None
    else
      var rest := LinearScan(ks[1..], q, inclusive);
      if Matches(ks[0], q, inclusive) && (rest.None? || |rest.value| < |ks[0]|) then Some(ks[0]) else rest
  }

  lemma {:induction false} LinearScanIsBest(ks: seq<Bits>, q: Bits, inclusive: bool)
    ensures IsBest((set k | k in ks), q, inclusive, LinearScan(ks, q, inclusive))
  {
    if ks != [] {
      LinearScanIsBest(ks[1..], q, inclusive);
      assert forall k :: k in ks <==> k == ks[0] || k in ks[1..];
    }
  }

  // ---- the search stack ----------------------------------------------------------------------------

  /** Stack entries are stored nodes with strictly growing paths, all shorter than `bound`. */
  ghost predicate StackOk(g: Graph, stack: seq<Node?>, bound: nat) {
    && (forall i {:trigger stack[i]} :: 0 <= i < |stack| ==>
          stack[i] != null && stack[i] in g && g[stack[i]].prefix.Some? && |g[stack[i]].path| < bound)
    && (forall i, j {:trigger stack[i], stack[j]} :: 0 <= i < j < |stack| ==>
          stack[i] in g && stack[j] in g && |g[stack[i]].path| < |g[stack[j]].path|)
  }

  /** Every stored prefix of `q` is on the stack or still below the current node. */
  ghost predicate Covered(g: Graph, head: Node?, maxbits: nat, q: Bits, stack: seq<Node?>, node: Node?)
    requires WF(g, head, maxbits)
  {
    forall n {:trigger g[n].prefix} :: n in g && g[n].prefix.Some? && g[n].path <= q ==>
      n in stack || (node != null && Below(g, head, maxbits, n, node))
  }

  function Pushed(g: Graph, stack: seq<Node?>, node: Node): seq<Node?>
    requires node in g
  {
    if g[node].prefix.Some? then stack + [node] else stack
  }

  lemma CoveredAtHead(g: Graph, head: Node?, maxbits: nat, q: Bits)
    requires WF(g, head, maxbits)
    ensures Covered(g, head, maxbits, q, [], head)
  {
    forall n | n in g
      ensures head != null && Below(g, head, maxbits, n, head)
    {
      BelowHead(g, head, maxbits, n);
    }
  }

  /** One step of the descent. */
  lemma CoveredStep(g: Graph, head: Node?, maxbits: nat, q: Bits, stack: seq<Node?>, node: Node)
    requires WF(g, head, maxbits) && node in g && |g[node].path| < |q|
    requires Covered(g, head, maxbits, q, stack, node)
    ensures Covered(g, head, maxbits, q, Pushed(g, stack, node), Child(g, node, q[|g[node].path|]))
  {
    forall n | n in g && g[n].prefix.Some? && g[n].path <= q && n !in Pushed(g, stack, node)
      ensures var c := Child(g, node, q[|g[node].path|]); c != null && Below(g, head, maxbits, n, c)
    {
      assert Below(g, head, maxbits, n, node);
      BelowChild(g, head, maxbits, n, node);
    }
  }

  lemma StackPush(g: Graph, stack: seq<Node?>, node: Node)
    requires node in g && StackOk(g, stack, |g[node].path|)
    ensures StackOk(g, Pushed(g, stack, node), |g[node].path| + 1)
  {
  }

  lemma StackBound(g: Graph, stack: seq<Node?>, bound: nat, wider: nat)
    requires StackOk(g, stack, bound) && bound <= wider
    ensures StackOk(g, stack, wider)
  {
  }

  lemma EmptyStackOk(g: Graph, bound: nat)
    ensures StackOk(g, [], bound)
  {
  }

  /** When the descent has stopped at or past |q| bits, the stack (with the last node, if the query itself
      may be returned) holds every candidate. */
  lemma StackComplete(g: Graph, head: Node?, maxbits: nat, q: Bits, stack: seq<Node?>, node: Node?, inclusive: bool)
    requires WF(g, head, maxbits) && Covered(g, head, maxbits, q, stack, node)
    requires node != null ==> node in g && |q| <= |g[node].path|
    ensures forall n {:trigger g[n].prefix} :: n in g && g[n].prefix.Some? && Matches(g[n].path, q, inclusive) ==>
              n in (if inclusive && node != null then Pushed(g, stack, node) else stack)
  {
    forall n | n in g && g[n].prefix.Some? && Matches(g[n].path, q, inclusive) && n !in stack
      ensures inclusive && node != null && n in Pushed(g, stack, node)
    {
      assert Below(g, head, maxbits, n, node);
      BelowSameLength(g, head, maxbits, n, node);
    }
  }

  /** The topmost matching stack entry is the longest match. */
  lemma TopEntryIsBest(g: Graph, m: map<Bits, Node>, q: Bits, inclusive: bool, stack: seq<Node?>, bound: nat, i: nat)
    requires Represents(g, m) && StackOk(g, stack, bound) && i < |stack|
    requires forall n {:trigger g[n].prefix} :: n in g && g[n].prefix.Some? && Matches(g[n].path, q, inclusive) ==> n in stack
    requires Matches(g[stack[i]].path, q, inclusive)
    requires forall j {:trigger stack[j]} :: i < j < |stack| ==> stack[j] in g && !(g[stack[j]].path <= q)
    ensures g[stack[i]].path in m && m[g[stack[i]].path] == stack[i]
    ensures IsBest(m.Keys, q, inclusive, Some(g[stack[i]].path))
  {
    forall k | k in m.Keys && Matches(k, q, inclusive)
      ensures |k| <= |g[stack[i]].path|
    {
      assert g[m[k]].prefix.Some?;
      var j :| 0 <= j < |stack| && stack[j] == m[k];
    }
  }

  lemma NoEntryIsNone(g: Graph, m: map<Bits, Node>, q: Bits, inclusive: bool, stack: seq<Node?>)
    requires Represents(g, m)
    requires forall n {:trigger g[n].prefix} :: n in g && g[n].prefix.Some? && Matches(g[n].path, q, inclusive) ==> n in stack
    requires forall j {:trigger stack[j]} :: 0 <= j < |stack| ==> stack[j] in g && !(g[stack[j]].path <= q)
    ensures IsBest(m.Keys, q, inclusive, None)
  {
    forall k | k in m.Keys
      ensures !Matches(k, q, inclusive)
    {
      assert g[m[k]].prefix.Some?;
    }
  }
}
