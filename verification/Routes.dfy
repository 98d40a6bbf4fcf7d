/**
 The route table of the forwarding engine (sfmc.c): a list of routes and a trie over their prefixes, kept in step.
 */
module Routes {
  import opened Wrappers
  import opened AddressBits
  import opened TrieGraph
  import opened TrieUpdate
  import opened TrieSearch
  import opened TrieWalk
  import opened Patricia

  /** __be32 */
  type Ip = a: seq<bv8> | |a| == 4 witness [0, 0, 0, 0]

  type HwAddr = a: seq<bv8> | |a| == 6 witness [0, 0, 0, 0, 0, 0]

  const IPV4_BITS := 32

  /** The states of a kernel neighbour entry; NUD_VALID is the set of those with a usable address. */
  datatype Nud = None | Incomplete | Reachable | Stale | Delay | Probe | Failed | NoArp | Permanent
  {
    predicate IsValid() {
      Reachable? || Stale? || Delay? || Probe? || NoArp? || Permanent?
    }
  }

  /** struct sfmc_fib */
  class Fib {
    const network: Ip
    const len: nat
    const gateway: Ip
    const link: bool
    var pn: Node?
    var mac: HwAddr
    var nud: Nud

    /** sfmc_fib_create */
    constructor (network: Ip, len: nat, gateway: Ip, link: bool)
      ensures this.network == network && this.len == len && this.gateway == gateway && this.link == link
      ensures pn == null && !nud.IsValid()
    {
      this.network, this.len, this.gateway, this.link := network, len, gateway, link;
      pn, mac, nud := null, [0, 0, 0, 0, 0, 0], Nud.None;
    }
  }

  /** dst2prefix: only the first four bytes of the address are written; `pad` is what the others happen to be. */
  function DstPrefix(ip: Ip, len: nat, pad: seq<bv8>): Prefix
    requires |pad| == 12
  {
    Prefix(ip + pad, len)
  }

  /** The bits of a route's destination. */
  function DstKey(ip: Ip, len: nat): (k: Bits)
    requires len <= IPV4_BITS
    ensures |k| == len
  {
    Key(DstPrefix(ip, len, seq(12, _ => 0)))
  }

  /** The uninitialised bytes never matter. */
  lemma PadIrrelevant(ip: Ip, len: nat, pad: seq<bv8>)
    requires |pad| == 12 && len <= IPV4_BITS
    ensures Key(DstPrefix(ip, len, pad)) == DstKey(ip, len)
  {
    var z := seq(12, _ => 0);
    var a: Address, b: Address := ip + pad, ip + z;
    forall i | 0 <= i < len
      ensures Expand(a)[i] == Expand(b)[i]
    {
      assert a[i / 8] == ip[i / 8] == b[i / 8];
    }
    assert Expand(a)[..len] == Expand(b)[..len];
  }

  /** Bit `i` of a destination counts from the top of its first byte on. */
  lemma DstKeyBits(ip: Ip, len: nat, i: nat)
    requires i < len <= IPV4_BITS
    ensures DstKey(ip, len)[i] == TestBit(ip[i / 8], i % 8)
  {
    var a: Address := ip + seq(12, _ => 0);
    assert a[i / 8] == ip[i / 8];
    assert Expand(a)[..len][i] == Expand(a)[i] == AddrBit(a, i);
  }

  function RouteKey(f: Fib): Bits
    requires f.len <= IPV4_BITS
  {
    DstKey(f.network, f.len)
  }

  /** List, trie and table of routes agree: they hold the same routes, each under its own prefix, and
      every node carries its route as data. */
  ghost predicate InStep(g: Graph, m: map<Bits, Node>, fs: seq<Fib>, table: map<Bits, Fib>) {
    && NoDup(fs)
    && table.Keys == m.Keys
    && (forall k {:trigger table[k]} {:trigger k in table} :: k in table ==> OnNode(g, m[k], table[k], k) && table[k] in fs)
    && (forall f {:trigger f in fs} :: f in fs ==> f.len <= IPV4_BITS && RouteKey(f) in table && table[RouteKey(f)] == f)
  }

  ghost predicate OnNode(g: Graph, n: Node, f: Fib, k: Bits) {
    f.len <= IPV4_BITS && RouteKey(f) == k && n in g && g[n].data == f
  }

  lemma InStepInsert(g: Graph, m: map<Bits, Node>, fs: seq<Fib>, table: map<Bits, Fib>, h: Graph, n: Node, f: Fib)
    requires Represents(g, m) && InStep(g, m, fs, table) && DataKept(g, h) && n in h && f.len <= IPV4_BITS
    requires RouteKey(f) !in m && (forall k {:trigger m[k]} :: k in m ==> m[k] != n) && f !in fs
    ensures InStep(SetData(h, n, f), m[RouteKey(f) := n], [f] + fs, table[RouteKey(f) := f])
  {
    var h', m', fs', table' := SetData(h, n, f), m[RouteKey(f) := n], [f] + fs, table[RouteKey(f) := f];
    NoDupConcat([f], fs);
    forall k | k in table'
      ensures OnNode(h', m'[k], table'[k], k) && table'[k] in fs'
    {
      if k != RouteKey(f) {
        assert k in table && OnNode(g, m[k], table[k], k);
      }
    }
  }

  /** The list without its entry `i`. */
  function Without<T>(s: seq<T>, i: nat): seq<T>
    requires i < |s|
  {
    s[..i] + s[i + 1..]
  }

  lemma WithoutElems<T>(s: seq<T>, i: nat)
    requires i < |s| && NoDup(s)
    ensures NoDup(Without(s, i)) && |Without(s, i)| < |s|
    ensures forall x :: x in Without(s, i) <==> x in s && x != s[i]
  {
    var t := Without(s, i);
    forall x | x in s && x != s[i]
      ensures x in t
    {
      var j :| 0 <= j < |s| && s[j] == x;
      if j < i {
        assert t[j] == x;
      } else {
        assert t[j - 1] == x;
      }
    }
  }

  lemma InStepDelete(g: Graph, m: map<Bits, Node>, fs: seq<Fib>, table: map<Bits, Fib>, h: Graph, n: Node, i: nat)
    requires Represents(g, m) && InStep(g, m, fs, table) && i < |fs| && fs[i].len <= IPV4_BITS
    requires RouteKey(fs[i]) in m && m[RouteKey(fs[i])] == n && Represents(h, m - {RouteKey(fs[i])}) && DataKeptExcept(g, h, n)
    ensures InStep(h, m - {RouteKey(fs[i])}, Without(fs, i), table - {RouteKey(fs[i])})
  {
    var f := fs[i];
    var m', fs', table' := m - {RouteKey(f)}, Without(fs, i), table - {RouteKey(f)};
    WithoutElems(fs, i);
    assert f in fs && OnNode(g, m[RouteKey(f)], f, RouteKey(f));
    forall k | k in table'
      ensures OnNode(h, m'[k], table'[k], k) && table'[k] in fs'
    {
      assert k in table && OnNode(g, m[k], table[k], k);
    }
  }

  lemma RouteNode(g: Graph, m: map<Bits, Node>, fs: seq<Fib>, table: map<Bits, Fib>, f: Fib)
    requires Represents(g, m) && InStep(g, m, fs, table) && f in fs
    ensures NoDup(fs) && f.len <= IPV4_BITS && RouteKey(f) in table && table[RouteKey(f)] == f && RouteKey(f) in m
    ensures m[RouteKey(f)] in g && g[m[RouteKey(f)]].path == RouteKey(f) && g[m[RouteKey(f)]].prefix.Some?
    ensures forall x {:trigger x in fs} :: x in fs && x != f ==> x.len <= IPV4_BITS && RouteKey(x) != RouteKey(f)
  {
    assert OnNode(g, m[RouteKey(f)], f, RouteKey(f));
  }

  /** Lookup came back with data: the prefix has a route already, and nothing has changed. */
  lemma ExistingRoute(g: Graph, m: map<Bits, Node>, fs: seq<Fib>, table: map<Bits, Fib>, h: Graph, n: Node, f: Fib)
    requires Represents(g, m) && InStep(g, m, fs, table) && n in h && h[n].data != null && f.len <= IPV4_BITS
    requires if RouteKey(f) in m then h == g && n == m[RouteKey(f)] else h[n].data == null
    ensures RouteKey(f) in table && InStep(h, m[RouteKey(f) := n], fs, table)
  {
    assert m[RouteKey(f) := n] == m;
  }

  lemma Unused(g: Graph, m: map<Bits, Node>, fs: seq<Fib>, table: map<Bits, Fib>, h: Graph, n: Node, f: Fib)
    requires InStep(g, m, fs, table) && n in h && h[n].data == null && DataKept(g, h)
    requires f.len <= IPV4_BITS && (RouteKey(f) in m ==> n == m[RouteKey(f)])
    ensures RouteKey(f) !in table
  {
  }

  /** Lookup came back without data: the prefix is new. */
  lemma FreshRoute(g: Graph, m: map<Bits, Node>, fs: seq<Fib>, table: map<Bits, Fib>, h: Graph, n: Node, f: Fib)
    requires Represents(g, m) && InStep(g, m, fs, table) && n in h && h[n].data == null && f.len <= IPV4_BITS && f !in fs
    requires DataKept(g, h) && h[n].path == RouteKey(f)
    requires Represents(h, m[RouteKey(f) := n]) && (RouteKey(f) in m ==> n == m[RouteKey(f)])
    ensures RouteKey(f) !in table
    ensures InStep(SetData(h, n, f), m[RouteKey(f) := n], [f] + fs, table[RouteKey(f) := f])
  {
    Unused(g, m, fs, table, h, n, f);
    var m' := m[RouteKey(f) := n];
    forall k {:trigger m[k]} | k in m
      ensures m[k] != n
    {
      assert m'[k] == m[k] && h[m'[k]].path == k;
    }
    InStepInsert(g, m, fs, table, h, n, f);
  }

  lemma EmptyTable(g: Graph, m: map<Bits, Node>, table: map<Bits, Fib>)
    requires InStep(g, m, [], table)
    ensures table == map[] && m == map[]
  {
  }

  /** A kernel neighbour entry. */
  datatype Neigh = Neigh(ha: HwAddr, nud: Nud)

  /** The part of struct sfmc that holds routes, and the kernel's neighbour table it follows. */
  class Sfmc {
    var fibTree: Tree
    var fibList: seq<Fib>
    /** arp_tbl, which belongs to the kernel */
    var arp: map<Ip, Neigh>
    /** The installed route of every prefix. */
    ghost var table: map<Bits, Fib>
    /** Installed routes whose neighbour has not been looked up yet. */
    ghost var pending: set<Fib>
    /** Addresses whose neighbour entry changed without notice since the last notice. */
    ghost var unnoticed: set<Ip>

    /** The saved handles: every installed route points to the node of its prefix. */
    ghost predicate Handles()
      reads `fibTree, fibTree`stored, `fibList, fibList`pn
    {
      forall f {:trigger f in fibList} :: f in fibList ==>
        f.len <= IPV4_BITS && RouteKey(f) in fibTree.stored && f.pn == fibTree.stored[RouteKey(f)]
    }

    ghost predicate Known(ip: Ip)
      reads `arp
    {
      ip in arp && arp[ip].nud.IsValid()
    }

    /** What a route caches is what the neighbour table says; before the lookup it may still be nothing. */
    ghost predicate Cached(f: Fib)
      reads `arp, `pending, f`mac, f`nud
    {
      && (f.nud.IsValid() ==> Known(f.gateway) && f.mac == arp[f.gateway].ha)
      && (f !in pending && Known(f.gateway) ==> f.nud.IsValid())
    }

    ghost predicate Valid()
      reads this, fibTree, fibTree.nodes, fibList
    {
      Agree() && CacheOk()
    }

    ghost predicate Agree()
      reads `fibTree, `fibList, `table, fibTree, fibTree.nodes, fibList`pn
    {
      && fibTree.Valid() && fibTree.maxbits == IPV4_BITS
      && InStep(fibTree.G(), fibTree.stored, fibList, table)
      && Handles()
    }

    ghost predicate CacheOk()
      reads `fibList, `arp, `pending, `unnoticed, fibList`mac, fibList`nud
    {
      forall f {:trigger Cached(f)} {:trigger f in fibList} :: f in fibList && f.gateway !in unnoticed ==> Cached(f)
    }

    /** A usable route carries the address of its gateway. */
    lemma UsableMac(f: Fib)
      requires Valid() && f in fibList && f.nud.IsValid() && f.gateway !in unnoticed
      ensures Known(f.gateway) && f.mac == arp[f.gateway].ha
    {
      assert Cached(f);
    }

    /** An installed route that has been looked up agrees with the known neighbours. */
    lemma LookedUp(made: seq<Fib>, m: Plain, i: nat)
      requires Valid() && Shows(made, table, pending, m) && Knows(arp, m.neighbours) && unnoticed == m.unnoticed
      requires i < |made| && made[i] in fibList && i !in m.open && made[i].gateway !in unnoticed
      ensures Right(made[i], m.neighbours)
    {
      hide Agree, Shows;
      NotWaiting(made, table, pending, m, i);
      assert Cached(made[i]);
    }

    /** The routing part of sfmc_init */
    constructor ()
      ensures Valid() && table == map[] && fibList == [] && pending == {} && unnoticed == {} && arp == map[]
      ensures fresh(fibTree) && fresh(fibTree.nodes)
    {
      fibTree := new Tree(IPV4_BITS);
      fibList, table, pending, unnoticed, arp := [], map[], {}, {}, map[];
    }

    /** sfmc_fib_find_exact */
    method FindExact(network: Ip, len: nat, pad: seq<bv8>) returns (f: Fib?)
      requires Valid() && len <= IPV4_BITS && |pad| == 12
      ensures f == if DstKey(network, len) in table then table[DstKey(network, len)] else null
    {
      hide WF, Represents, Key;
      PadIrrelevant(network, len, pad);
      var pn := fibTree.SearchExact(DstPrefix(network, len, pad));
      if pn == null {
        return null;
      }
      f := Payload(pn, DstKey(network, len));
    }

    lemma TreeFacts()
      requires fibTree.Valid()
      ensures Represents(fibTree.G(), fibTree.stored) && fibTree.G().Keys == fibTree.nodes
    {
    }

    lemma NoRoutes()
      requires Valid() && fibList == []
      ensures table == map[] && fibTree.stored == map[] && fibTree.numActiveNode == 0
    {
      EmptyTable(fibTree.G(), fibTree.stored, table);
      fibTree.CountBound();
    }

    lemma RoutesByKey()
      requires Valid()
      ensures forall f {:trigger f in fibList} :: f in fibList ==> f.len <= IPV4_BITS && RouteKey(f) in table && table[RouteKey(f)] == f
      ensures forall k {:trigger table[k]} :: k in table ==> table[k] in fibList && table[k].len <= IPV4_BITS && RouteKey(table[k]) == k
    {
      forall k {:trigger table[k]} | k in table
        ensures table[k] in fibList && table[k].len <= IPV4_BITS && RouteKey(table[k]) == k
      {
        assert OnNode(fibTree.G(), fibTree.stored[k], table[k], k);
      }
    }

    /** pn->data */
    method Payload(pn: Node, ghost k: Bits) returns (f: Fib)
      requires Agree() && k in fibTree.stored && fibTree.stored[k] == pn
      ensures k in table && f == table[k]
    {
      assert OnNode(fibTree.G(), pn, table[k], k);
      f := pn.data as Fib;
    }

    /** sfmc_fib_find_best */
    method FindBest(network: Ip, len: nat, pad: seq<bv8>) returns (f: Fib?)
      requires Valid() && len <= IPV4_BITS && |pad| == 12
      ensures f != null ==> f in fibList && f.len <= IPV4_BITS && RouteKey(f) in table && table[RouteKey(f)] == f
      ensures IsBest(table.Keys, DstKey(network, len), true, if f == null then Option.None else Some(RouteKey(f)))
    {
      hide WF, Represents, Key, IsBest;
      PadIrrelevant(network, len, pad);
      var pn := fibTree.SearchBest2(DstPrefix(network, len, pad), true);
      if pn == null {
        return null;
      }
      f := Payload(pn, pn.path);
    }

    // ---- routes --------------------------------------------------------------------------------------

    /** sfmc_fib_insert: the first route for a prefix stays. */
    method FibInsert(sf: Fib) returns (r: Fib)
      requires Valid() && sf.len <= IPV4_BITS && sf !in fibList && !sf.nud.IsValid()
      modifies this, fibTree, fibTree.nodes, sf`pn
      ensures Valid() && fibTree == old(fibTree) && fresh(fibTree.nodes - old(fibTree.nodes))
      ensures arp == old(arp) && unnoticed == old(unnoticed)
      ensures RouteKey(sf) in table && r == table[RouteKey(sf)]
      ensures if RouteKey(sf) in old(table)
              then table == old(table) && fibList == old(fibList) && pending == old(pending)
              else table == old(table)[RouteKey(sf) := sf] && fibList == [sf] + old(fibList) && pending == old(pending) + {sf}
    {
      hide Agree, DstKey;
      r := Install(sf);
      if r == sf {
        pending := pending + {sf};
      }
    }

    method Install(sf: Fib) returns (r: Fib)
      requires Agree() && sf.len <= IPV4_BITS && sf !in fibList
      modifies `fibList, `table, fibTree, fibTree.nodes, sf`pn
      ensures Agree() && fibTree == old(fibTree) && fresh(fibTree.nodes - old(fibTree.nodes))
      ensures RouteKey(sf) in table && r == table[RouteKey(sf)] && (RouteKey(sf) in old(table) <==> r != sf)
      ensures if RouteKey(sf) in old(table) then table == old(table) && fibList == old(fibList)
              else table == old(table)[RouteKey(sf) := sf] && fibList == [sf] + old(fibList)
    {
      hide WF, Represents, Key, DstKey, InStep, Tree.Valid, Handles, SetData;
      var pn := Probe(sf);
      if pn.data != null {
        r := Incumbent(sf, pn);
      } else {
        Attach(sf, pn);
        r := sf;
      }
    }

    /** patricia_lookup comes back with data exactly if the prefix has a route. */
    method Probe(sf: Fib) returns (pn: Node)
      requires Agree() && sf.len <= IPV4_BITS && sf !in fibList
      modifies fibTree, fibTree.nodes
      ensures fibTree.Valid() && fresh(fibTree.nodes - old(fibTree.nodes)) && Handles()
      ensures pn in fibTree.nodes && pn.prefix.Some? && RouteKey(sf) in fibTree.stored && fibTree.stored[RouteKey(sf)] == pn
      ensures pn.data != null ==> RouteKey(sf) in table && InStep(fibTree.G(), fibTree.stored, fibList, table)
      ensures pn.data == null ==> RouteKey(sf) !in table
      ensures pn.data == null ==> InStep(SetData(fibTree.G(), pn, sf), fibTree.stored, [sf] + fibList, table[RouteKey(sf) := sf])
    {
      hide WF, Represents, Key, DstKey, InStep, DataKept, Tree.Valid, Handles, SetData;
      ghost var g, m := fibTree.G(), fibTree.stored;
      TreeFacts();
      pn := Seek(sf);
      TreeFacts();
      ghost var h := fibTree.G();
      if pn.data != null {
        ExistingRoute(g, m, fibList, table, h, pn, sf);
      } else {
        FreshRoute(g, m, fibList, table, h, pn, sf);
      }
    }

    /** The new node gets its route, and the route its node. */
    method Attach(sf: Fib, pn: Node)
      requires fibTree.Valid() && fibTree.maxbits == IPV4_BITS && Handles() && sf !in fibList && sf.len <= IPV4_BITS
      requires pn in fibTree.nodes && pn.prefix.Some? && RouteKey(sf) in fibTree.stored && fibTree.stored[RouteKey(sf)] == pn
      requires InStep(SetData(fibTree.G(), pn, sf), fibTree.stored, [sf] + fibList, table[RouteKey(sf) := sf])
      modifies `fibList, `table, pn`data, sf`pn
      ensures Agree() && table == old(table)[RouteKey(sf) := sf] && fibList == [sf] + old(fibList)
    {
      hide WF, Represents, Key, DstKey, InStep, DataKept, Tree.Valid;
      fibTree.PutData(pn, sf);
      sf.pn := pn;
      fibList := [sf] + fibList;
      table := table[RouteKey(sf) := sf];
    }

    method Incumbent(sf: Fib, pn: Node) returns (r: Fib)
      requires Agree() && sf.len <= IPV4_BITS && RouteKey(sf) in table && fibTree.stored[RouteKey(sf)] == pn && sf !in fibList
      ensures r == table[RouteKey(sf)] && r != sf
    {
      r := Payload(pn, RouteKey(sf));
      SameRoute(sf, r);
    }

    lemma SameRoute(sf: Fib, r: Fib)
      requires Agree() && sf.len <= IPV4_BITS && RouteKey(sf) in table && r == table[RouteKey(sf)] && sf !in fibList
      ensures r != sf
    {
      assert OnNode(fibTree.G(), fibTree.stored[RouteKey(sf)], table[RouteKey(sf)], RouteKey(sf));
    }

    /** The call of patricia_lookup. */
    method Seek(sf: Fib) returns (pn: Node)
      requires Agree() && sf.len <= IPV4_BITS
      modifies fibTree, fibTree.nodes
      ensures fibTree.Valid() && fresh(fibTree.nodes - old(fibTree.nodes)) && Handles()
      ensures pn in fibTree.nodes && fibTree.G()[pn].path == RouteKey(sf) && fibTree.G()[pn].prefix.Some?
      ensures fibTree.stored == old(fibTree.stored)[RouteKey(sf) := pn] && DataKept(old(fibTree.G()), fibTree.G())
      ensures if RouteKey(sf) in old(fibTree.stored) then pn == old(fibTree.stored)[RouteKey(sf)] && fibTree.G() == old(fibTree.G())
              else fibTree.G()[pn].data == null
    {
      hide WF, Represents, Key, DstKey, InStep, DataKept;
      var pad := seq(12, _ => 0);
      PadIrrelevant(sf.network, sf.len, pad);
      pn := fibTree.Lookup(DstPrefix(sf.network, sf.len, pad));
    }

    /** list_del_rcu */
    method ListDel(sf: Fib) returns (ghost i: nat)
      requires NoDup(fibList) && sf in fibList
      modifies `fibList
      ensures i < |old(fibList)| && old(fibList)[i] == sf && fibList == Without(old(fibList), i)
    {
      var j := 0;
      while fibList[j] != sf
        invariant j < |fibList| && sf in fibList[j..]
        decreases |fibList| - j
      {
        assert fibList[j..] == [fibList[j]] + fibList[j + 1..];
        j := j + 1;
      }
      i, fibList := j, Without(fibList, j);
    }

    /** sfmc_fib_delete */
    method FibDelete(sf: Fib)
      requires Valid() && sf in fibList
      modifies `fibList, `table, fibTree, fibTree.nodes
      ensures Valid() && fibTree == old(fibTree) && fibTree.nodes <= old(fibTree.nodes)
      ensures sf.len <= IPV4_BITS && RouteKey(sf) in old(table) && table == old(table) - {RouteKey(sf)}
      ensures |fibList| < |old(fibList)| && forall f :: f in fibList <==> f in old(fibList) && f != sf
    {
      hide Agree, DstKey;
      Uninstall(sf);
    }

    method Uninstall(sf: Fib)
      requires Agree() && sf in fibList
      modifies `fibList, `table, fibTree, fibTree.nodes
      ensures Agree() && fibTree == old(fibTree) && fibTree.nodes <= old(fibTree.nodes)
      ensures sf.len <= IPV4_BITS && RouteKey(sf) in old(table) && table == old(table) - {RouteKey(sf)}
      ensures |fibList| < |old(fibList)| && forall f :: f in fibList <==> f in old(fibList) && f != sf
    {
      hide WF, Represents, Key, DstKey, InStep, DataKeptExcept, NoDup, Without, Tree.Valid;
      ghost var g, m, fs := fibTree.G(), fibTree.stored, fibList;
      TreeFacts();
      RouteNode(g, m, fibList, table, sf);
      Prune(sf.pn);
      TreeFacts();
      Detach(sf, g, m);
    }

    method Detach(sf: Fib, ghost g: Graph, ghost m: map<Bits, Node>)
      requires fibTree.Valid() && fibTree.maxbits == IPV4_BITS && NoDup(fibList) && sf in fibList && sf.len <= IPV4_BITS
      requires Represents(g, m) && InStep(g, m, fibList, table) && RouteKey(sf) in m
      requires fibTree.stored == m - {RouteKey(sf)} && DataKeptExcept(g, fibTree.G(), m[RouteKey(sf)])
      requires forall f {:trigger f in fibList} :: f in fibList && f != sf ==>
          f.len <= IPV4_BITS && RouteKey(f) in fibTree.stored && f.pn == fibTree.stored[RouteKey(f)]
      modifies `fibList, `table
      ensures Agree() && table == old(table) - {RouteKey(sf)}
      ensures |fibList| < |old(fibList)| && forall f :: f in fibList <==> f in old(fibList) && f != sf
    {
      hide WF, Represents, Key, DstKey, InStep, DataKeptExcept, NoDup, Without, Tree.Valid;
      TreeFacts();
      ghost var fs, h := fibList, fibTree.G();
      ghost var i := ListDel(sf);
      WithoutElems(fs, i);
      InStepDelete(g, m, fs, table, h, m[RouteKey(sf)], i);
      table := table - {RouteKey(sf)};
    }

    /** The call of patricia_remove. */
    method Prune(pn: Node)
      requires fibTree.Valid() && pn in fibTree.nodes && pn.prefix.Some?
      modifies fibTree, fibTree.nodes
      ensures fibTree.Valid() && fibTree.stored == old(fibTree.stored) - {old(pn.path)}
      ensures fibTree.nodes <= old(fibTree.nodes) && DataKeptExcept(old(fibTree.G()), fibTree.G(), pn)
    {
      hide WF, Represents, DataKeptExcept;
      fibTree.Remove(pn);
    }

    /** sfmc_fib_del, which serves sfmc_port_obj_del: false is -ENOENT */
    method FibDel(network: Ip, len: nat, pad: seq<bv8>) returns (ok: bool)
      requires Valid() && len <= IPV4_BITS && |pad| == 12
      modifies this, fibTree, fibTree.nodes
      ensures Valid() && fibTree == old(fibTree) && fibTree.nodes <= old(fibTree.nodes)
      ensures arp == old(arp) && unnoticed == old(unnoticed) && pending == old(pending)
      ensures ok <==> DstKey(network, len) in old(table)
      ensures table == old(table) - {DstKey(network, len)} && (!ok ==> fibList == old(fibList))
      ensures forall f :: f in fibList <==> f in old(fibList) && RouteKey(f) != DstKey(network, len)
    {
      hide WF, Represents, Key, DstKey, InStep;
      RoutesByKey();
      var sf := FindExact(network, len, pad);
      if sf == null {
        return false;
      }
      FibDelete(sf);
      return true;
    }

    /** sfmc_fib_destroy */
    method FibDestroy()
      requires Valid()
      modifies this, fibTree, fibTree.nodes
      ensures Valid() && fibTree == old(fibTree) && fibTree.nodes <= old(fibTree.nodes) && fibList == [] && table == map[]
      ensures fibTree.stored == map[] && fibTree.numActiveNode == 0 && arp == old(arp) && unnoticed == old(unnoticed) && pending == old(pending)
    {
      hide Agree, CacheOk, DstKey;
      while fibList != []
        invariant Valid() && fibTree == old(fibTree) && fibTree.nodes <= old(fibTree.nodes)
        invariant arp == old(arp) && unnoticed == old(unnoticed) && pending == old(pending)
        decreases |fibList|
      {
        FibDelete(fibList[0]);
      }
      NoRoutes();
    }

    // ---- neighbours ----------------------------------------------------------------------------------

    /** sfmc_neigh_write */
    method NeighWrite(sf: Fib, n: Neigh)
      modifies sf`mac, sf`nud
      ensures sf.mac == n.ha && sf.nud == n.nud
    {
      sf.mac := n.ha;
      sf.nud := n.nud;
    }

    /** sfmc_neigh_resolve: take over a valid entry, else make sure there is one and let the kernel resolve it; `probed` is the
        state the kernel leaves it in. */
    method NeighResolve(sf: Fib, probed: Nud)
      requires Valid() && !probed.IsValid()
      modifies `arp, `pending, sf`mac, sf`nud
      ensures Valid() && pending == old(pending) - {sf}
      ensures forall ip :: Known(ip) == old(Known(ip)) && (Known(ip) ==> arp[ip] == old(arp[ip]))
      ensures sf.gateway in arp && arp.Keys == old(arp).Keys + {sf.gateway}
      ensures if Known(sf.gateway) then sf.nud.IsValid() && sf.nud == arp[sf.gateway].nud && sf.mac == arp[sf.gateway].ha
              else arp[sf.gateway].nud == probed && sf.mac == old(sf.mac) && sf.nud == old(sf.nud)
    {
      hide Agree;
      if sf.gateway !in arp {
        arp := arp[sf.gateway := Neigh([0, 0, 0, 0, 0, 0], Nud.None)];
      }
      var n := arp[sf.gateway];
      if n.nud.IsValid() {
        NeighWrite(sf, n);
      } else {
        arp := arp[sf.gateway := n.(nud := probed)];
      }
      pending := pending - {sf};
      forall f | f in fibList && f.gateway !in unnoticed
        ensures Cached(f)
      {
        assert old(Cached(f));
      }
    }

    /** sfmc_neigh_update, called after the kernel has changed the entry of `ip`. */
    method NeighUpdate(ip: Ip, n: Neigh)
      requires Valid()
      modifies `arp, `unnoticed, fibList`mac, fibList`nud
      ensures Valid() && arp == old(arp)[ip := n] && unnoticed == old(unnoticed) - {ip}
      ensures forall f :: f in fibList ==>
          if f.gateway == ip then f.mac == n.ha && f.nud == n.nud else f.mac == old(f.mac) && f.nud == old(f.nud)
    {
      hide Agree;
      arp := arp[ip := n];
      for i := 0 to |fibList|
        invariant Agree() && arp == old(arp)[ip := n] && unnoticed == old(unnoticed)
        invariant forall j :: 0 <= j < i && fibList[j].gateway == ip ==> fibList[j].mac == n.ha && fibList[j].nud == n.nud
        invariant forall f :: f in fibList && f.gateway != ip ==> f.mac == old(f.mac) && f.nud == old(f.nud)
      {
        if fibList[i].gateway == ip {
          NeighWrite(fibList[i], n);
        }
      }
      unnoticed := unnoticed - {ip};
      forall f | f in fibList && f.gateway !in unnoticed
        ensures Cached(f)
      {
        if f.gateway != ip {
          assert old(Cached(f));
        }
      }
    }

    /** The kernel changes or drops an entry without a notice. A change of state that keeps a valid entry valid, with its
        address, or an invalid one invalid, does no harm. */
    method KernelChange(ip: Ip, n: Option<Neigh>)
      requires Valid()
      modifies `arp, `unnoticed
      ensures Valid() && arp == (if n.Some? then old(arp)[ip := n.value] else old(arp) - {ip})
      ensures unnoticed == old(if Harmless(ip, n) then unnoticed else unnoticed + {ip})
    {
      hide Agree;
      unnoticed := if Harmless(ip, n) then unnoticed else unnoticed + {ip};
      arp := if n.Some? then arp[ip := n.value] else arp - {ip};
      forall f | f in fibList && f.gateway !in unnoticed
        ensures Cached(f)
      {
        assert old(Cached(f));
      }
    }

    ghost predicate Harmless(ip: Ip, n: Option<Neigh>)
      reads `arp
    {
      if Known(ip) then n.Some? && n.value.nud.IsValid() && n.value.ha == arp[ip].ha
      else n.Some? ==> !n.value.nud.IsValid()
    }

    // ---- the callers ---------------------------------------------------------------------------------

    /** sfmc_fib_add: the new object is returned even when an older route is kept. */
    method FibAdd(network: Ip, len: nat, gateway: Ip, link: bool) returns (sf: Fib)
      requires Valid() && len <= IPV4_BITS
      modifies this, fibTree, fibTree.nodes
      ensures Valid() && fibTree == old(fibTree) && fresh(fibTree.nodes - old(fibTree.nodes)) && fresh(sf)
      ensures arp == old(arp) && unnoticed == old(unnoticed)
      ensures sf.network == network && sf.len == len && sf.gateway == gateway && sf.link == link && !sf.nud.IsValid()
      ensures if DstKey(network, len) in old(table)
              then table == old(table) && fibList == old(fibList) && pending == old(pending)
              else table == old(table)[DstKey(network, len) := sf] && fibList == [sf] + old(fibList) && pending == old(pending) + {sf}
    {
      hide Agree, CacheOk, DstKey;
      sf := new Fib(network, len, gateway, link);
      var _ := FibInsert(sf);
    }

    /** The commit phase of sfmc_port_obj_add for an IPv4 route. */
    method PortObjAdd(network: Ip, len: nat, gateway: Ip, link: bool, probed: Nud)
      requires Valid() && len <= IPV4_BITS && !probed.IsValid()
      modifies this, fibTree, fibTree.nodes
      ensures Valid() && fibTree == old(fibTree) && fresh(fibTree.nodes - old(fibTree.nodes)) && unnoticed == old(unnoticed)
      ensures pending == old(pending) && ((gateway == [0, 0, 0, 0] && !link) || gateway in arp)
      ensures var k := DstKey(network, len);
              if (gateway == [0, 0, 0, 0] && !link) || k in old(table) then table == old(table) && fibList == old(fibList)
              else exists sf: Fib :: fresh(sf) && sf.network == network && sf.len == len && sf.gateway == gateway && sf.link == link
                                && table == old(table)[k := sf] && fibList == [sf] + old(fibList)
                                && sf.nud.IsValid() == Known(gateway) && (Known(gateway) ==> sf.mac == arp[gateway].ha)
    {
      hide Agree, CacheOk, DstKey;
      if gateway == [0, 0, 0, 0] && !link {
        return;
      }
      var sf := FibAdd(network, len, gateway, link);
      assert DstKey(network, len) !in old(table) ==> table == old(table)[DstKey(network, len) := sf];
      NeighResolve(sf, probed);
    }

    /** sfmc_ll_neigh_work: a host route made by the encapsulator. */
    method LlNeighWork(sf: Fib, probed: Nud)
      requires Valid() && sf.len <= IPV4_BITS && sf !in fibList && !sf.nud.IsValid() && sf !in pending && !probed.IsValid()
      modifies this, fibTree, fibTree.nodes, sf
      ensures Valid() && fibTree == old(fibTree) && fresh(fibTree.nodes - old(fibTree.nodes)) && unnoticed == old(unnoticed)
      ensures pending == old(pending)
      ensures if RouteKey(sf) in old(table) then table == old(table) && fibList == old(fibList)
              else table == old(table)[RouteKey(sf) := sf] && fibList == [sf] + old(fibList)
      ensures RouteKey(sf) in table && sf.gateway in arp
      ensures if Known(sf.gateway) then sf.nud.IsValid() && sf.mac == arp[sf.gateway].ha else arp[sf.gateway].nud == probed
    {
      hide Agree, CacheOk, DstKey;
      var _ := FibInsert(sf);
      NeighResolve(sf, probed);
    }

    /** One event does to the engine what it does to the plain description; `made` lists all routes ever made. */
    method Step(e: Event, made: seq<Fib>, ghost m: Plain) returns (made': seq<Fib>)
      requires Valid() && e.Ok() && (forall f :: f in fibList ==> f in made) && Shows(made, table, pending, m)
      requires Knows(arp, m.neighbours) && unnoticed == m.unnoticed
      modifies this, fibTree, fibTree.nodes, made
      ensures Valid() && fibTree == old(fibTree) && fresh(fibTree.nodes - old(fibTree.nodes))
      ensures forall f :: f in fibList ==> f in made'
      ensures if e.Install? then |made'| == |made| + 1 && made <= made' && fresh(made'[|made|]) else made' == made
      ensures Shows(made', table, pending, After(m, e)) && Knows(arp, After(m, e).neighbours) && unnoticed == After(m, e).unnoticed
    {
      hide Valid, DstKey, Shows, Knows, Learned, NoLoss;
      made' := made;
      match e
      case Install(n, l, gw, link) =>
        ghost var was := table;
        var sf := FibAdd(n, l, gw, link);
        made' := made + [sf];
        assert made'[|made|] == sf;
        ShowsInstall(made, was, old(pending), m, sf);
      case Resolve(k, probed) =>
        if k < |made| {
          NeighResolve(made[k], probed);
          KnowsSame(old(arp), arp, m.neighbours);
        }
        ShowsResolve(made, table, old(pending), m, k);
      case Delete(n, l) =>
        ghost var was := table;
        var _ := FibDel(n, l, seq(12, _ => 0));
        ShowsDelete(made, was, pending, m, DstKey(n, l));
      case Destroy =>
        FibDestroy();
        ShowsDestroy(made, old(table), pending, m);
      case Notice(ip, n) =>
        assert forall i :: 0 <= i < |fibList| ==> fibList[i] in made;
        NeighUpdate(ip, n);
        KnowsLearned(old(arp), m.neighbours, ip, Some(n));
        ShowsSame(made, table, pending, m, After(m, e));
      case Silent(ip, n) =>
        KnowsLearned(arp, m.neighbours, ip, n);
        KernelChange(ip, n);
        ShowsSame(made, table, pending, m, After(m, e));
    }
  }

  // ---- whole runs ----------------------------------------------------------------------------------------------------

  /** What happens to the engine. A route is installed by one step and its neighbour looked up by a later one, so that notices
      and deletions may come between; `Resolve` names the route by the order of installation. */
  datatype Event =
    | Install(network: Ip, len: nat, gateway: Ip, link: bool)
    | Resolve(which: nat, probed: Nud)
    | Delete(network: Ip, len: nat)
    | Destroy
    | Notice(ip: Ip, neigh: Neigh)
    | Silent(ip: Ip, entry: Option<Neigh>)
  {
    predicate Ok() {
      ((Install? || Delete?) ==> len <= IPV4_BITS) && (Resolve? ==> !probed.IsValid())
    }
  }

  datatype Route = Route(network: Ip, len: nat, gateway: Ip, link: bool)

  /** The engine without objects: all routes ever made, in order; the number of the installed route of every prefix; the numbers of
      installed routes whose neighbour has not been looked up since; the hardware addresses of the known neighbours; and the addresses
      whose entry changed without notice since the last notice. */
  datatype Plain = Plain(installs: seq<Route>, routes: map<Bits, nat>, open: set<nat>, neighbours: map<Ip, HwAddr>, unnoticed: set<Ip>)

  /** The known neighbours when the entry of `ip` becomes `n`. */
  function Learned(ns: map<Ip, HwAddr>, ip: Ip, n: Option<Neigh>): map<Ip, HwAddr> {
    if n.Some? && n.value.nud.IsValid() then ns[ip := n.value.ha] else ns - {ip}
  }

  /** A change that need not be noticed: the neighbour is known with the same address as before, or unknown as before. */
  predicate NoLoss(ns: map<Ip, HwAddr>, ip: Ip, n: Option<Neigh>) {
    if ip in ns then n.Some? && n.value.nud.IsValid() && n.value.ha == ns[ip]
    else n.Some? ==> !n.value.nud.IsValid()
  }

  ghost function After(m: Plain, e: Event): Plain
    requires e.Ok()
  {
    match e
    case Install(n, l, gw, link) =>
      var k, i := DstKey(n, l), |m.installs|;
      var m' := m.(installs := m.installs + [Route(n, l, gw, link)]);
      if k in m.routes then m' else m'.(routes := m.routes[k := i], open := m.open + {i})
    case Resolve(k, _) => m.(open := m.open - {k})
    case Delete(n, l) => m.(routes := m.routes - {DstKey(n, l)})
    case Destroy => m.(routes := map[])
    case Notice(ip, n) => m.(neighbours := Learned(m.neighbours, ip, Some(n)), unnoticed := m.unnoticed - {ip})
    case Silent(ip, n) =>
      m.(neighbours := Learned(m.neighbours, ip, n), unnoticed := if NoLoss(m.neighbours, ip, n) then m.unnoticed else m.unnoticed + {ip})
  }

  ghost function Outcome(es: seq<Event>): Plain
    requires forall e :: e in es ==> e.Ok()
  {
    if es == [] then Plain([], map[], {}, map[], {}) else
      assert es[|es| - 1] in es;
      After(Outcome(es[..|es| - 1]), es[|es| - 1])
  }

  /** The objects are those of the description: no object is made twice, the k-th one made has the fields of the k-th install, the
      table holds the numbered routes, and those waiting for their neighbour are the open ones. */
  ghost predicate Shows(made: seq<Fib>, table: map<Bits, Fib>, pending: set<Fib>, m: Plain) {
    && NoDup(made) && |made| == |m.installs|
    && (forall i {:trigger made[i]} :: 0 <= i < |made| ==> m.installs[i] == RouteOf(made[i]))
    && table.Keys == m.routes.Keys
    && (forall k {:trigger table[k]} {:trigger m.routes[k]} :: k in table ==> m.routes[k] < |made| && table[k] == made[m.routes[k]])
    && (forall i {:trigger i in m.open} :: i in m.open ==> i < |made| && made[i] in pending)
    && (forall f {:trigger f in pending} :: f in pending ==> exists i :: i in m.open && i < |made| && made[i] == f)
  }

  function RouteOf(f: Fib): Route {
    Route(f.network, f.len, f.gateway, f.link)
  }

  /** The neighbour table knows exactly these addresses. */
  ghost predicate Knows(arp: map<Ip, Neigh>, ns: map<Ip, HwAddr>) {
    forall ip {:trigger ip in ns} {:trigger ip in arp} ::
      (ip in ns <==> ip in arp && arp[ip].nud.IsValid()) && (ip in ns ==> arp[ip].ha == ns[ip])
  }

  lemma KnowsSame(arp: map<Ip, Neigh>, arp': map<Ip, Neigh>, ns: map<Ip, HwAddr>)
    requires Knows(arp, ns)
    requires forall ip :: (ip in arp' && arp'[ip].nud.IsValid() <==> ip in arp && arp[ip].nud.IsValid())
                          && (ip in arp' && arp'[ip].nud.IsValid() ==> arp'[ip] == arp[ip])
    ensures Knows(arp', ns)
  {
  }

  lemma ShowsInstall(made: seq<Fib>, table: map<Bits, Fib>, pending: set<Fib>, m: Plain, f: Fib)
    requires Shows(made, table, pending, m) && f !in made && f.len <= IPV4_BITS
    ensures var k, m' := RouteKey(f), After(m, Install(f.network, f.len, f.gateway, f.link));
            if k in table then Shows(made + [f], table, pending, m') else Shows(made + [f], table[k := f], pending + {f}, m')
  {
    hide DstKey;
    var k, i, made' := RouteKey(f), |made|, made + [f];
    var m' := After(m, Install(f.network, f.len, f.gateway, f.link));
    NoDupConcat(made, [f]);
    assert forall j {:trigger made'[j]} :: 0 <= j < |made'| ==> m'.installs[j] == RouteOf(made'[j]);
    assert forall j :: 0 <= j < |made| ==> made'[j] == made[j];
    var pending' := if k in table then pending else pending + {f};
    forall g | g in pending'
      ensures exists j :: j in m'.open && j < |made'| && made'[j] == g
    {
      if g in pending {
        var j :| j in m.open && j < |made| && made[j] == g;
        assert j in m'.open && made'[j] == g;
      } else {
        assert i in m'.open && made'[i] == g;
      }
    }
  }

  lemma ShowsResolve(made: seq<Fib>, table: map<Bits, Fib>, pending: set<Fib>, m: Plain, k: nat)
    requires Shows(made, table, pending, m)
    ensures Shows(made, table, if k < |made| then pending - {made[k]} else pending, m.(open := m.open - {k}))
  {
    var m' := m.(open := m.open - {k});
    var pending' := if k < |made| then pending - {made[k]} else pending;
    forall g | g in pending'
      ensures exists j :: j in m'.open && j < |made| && made[j] == g
    {
      var j :| j in m.open && j < |made| && made[j] == g;
      assert j in m'.open;
    }
  }

  lemma ShowsDelete(made: seq<Fib>, table: map<Bits, Fib>, pending: set<Fib>, m: Plain, k: Bits)
    requires Shows(made, table, pending, m)
    ensures Shows(made, table - {k}, pending, m.(routes := m.routes - {k}))
  {
  }

  lemma ShowsDestroy(made: seq<Fib>, table: map<Bits, Fib>, pending: set<Fib>, m: Plain)
    requires Shows(made, table, pending, m)
    ensures Shows(made, map[], pending, m.(routes := map[]))
  {
  }

  lemma ShowsSame(made: seq<Fib>, table: map<Bits, Fib>, pending: set<Fib>, m: Plain, m': Plain)
    requires Shows(made, table, pending, m) && m'.installs == m.installs && m'.routes == m.routes && m'.open == m.open
    ensures Shows(made, table, pending, m')
  {
  }

  lemma NotWaiting(made: seq<Fib>, table: map<Bits, Fib>, pending: set<Fib>, m: Plain, i: nat)
    requires Shows(made, table, pending, m) && i < |made| && i !in m.open
    ensures made[i] !in pending
  {
    forall j | j in m.open && j < |made|
      ensures made[j] != made[i]
    {
    }
  }

  lemma KnowsLearned(arp: map<Ip, Neigh>, ns: map<Ip, HwAddr>, ip: Ip, n: Option<Neigh>)
    requires Knows(arp, ns)
    ensures Knows(if n.Some? then arp[ip := n.value] else arp - {ip}, Learned(ns, ip, n))
    ensures NoLoss(ns, ip, n) <==> if ip in arp && arp[ip].nud.IsValid() then n.Some? && n.value.nud.IsValid() && n.value.ha == arp[ip].ha
                                   else n.Some? ==> !n.value.nud.IsValid()
  {
  }

  /** Without silent changes nothing is unnoticed. */
  lemma {:induction false} NoSilentChange(es: seq<Event>)
    requires forall e :: e in es ==> e.Ok() && !e.Silent?
    ensures Outcome(es).unnoticed == {}
  {
    if es != [] {
      var n := |es| - 1;
      assert es[n] in es;
      NoSilentChange(es[..n]);
    }
  }

  lemma NothingYet()
    ensures Shows([], map[], {}, Plain([], map[], {}, map[], {})) && Knows(map[], map[])
  {
  }

  /** What a route caches is right: usable exactly if its gateway is a known neighbour, and then with its address. */
  ghost predicate Right(f: Fib, ns: map<Ip, HwAddr>)
    reads f`mac, f`nud
  {
    (f.nud.IsValid() <==> f.gateway in ns) && (f.gateway in ns ==> f.mac == ns[f.gateway])
  }

  /** Every run leaves the engine as described without objects, list and trie in step; and every installed route that has been looked
      up, through a gateway that did not change unnoticed, agrees with the known neighbours. */
  method Run(es: seq<Event>) returns (s: Sfmc, made: seq<Fib>)
    requires forall e :: e in es ==> e.Ok()
    ensures s.Valid() && Shows(made, s.table, s.pending, Outcome(es))
    ensures Knows(s.arp, Outcome(es).neighbours) && s.unnoticed == Outcome(es).unnoticed
    ensures forall i :: 0 <= i < |made| && made[i] in s.fibList && i !in Outcome(es).open && made[i].gateway !in Outcome(es).unnoticed
              ==> Right(made[i], Outcome(es).neighbours)
  {
    hide Sfmc.Valid, DstKey, Shows, Knows, After, Right;
    s := new Sfmc();
    made := [];
    NothingYet();
    for i := 0 to |es|
      invariant s.Valid() && fresh(s) && fresh(s.fibTree) && fresh(s.fibTree.nodes)
      invariant forall j :: 0 <= j < |made| ==> fresh(made[j])
      invariant forall f :: f in s.fibList ==> f in made
      invariant Shows(made, s.table, s.pending, Outcome(es[..i]))
      invariant Knows(s.arp, Outcome(es[..i]).neighbours) && s.unnoticed == Outcome(es[..i]).unnoticed
    {
      assert es[..i + 1][..i] == es[..i] && es[i] in es && es[..i + 1][i] == es[i];
      made := s.Step(es[i], made, Outcome(es[..i]));
    }
    assert es[..|es|] == es;
    forall i | 0 <= i < |made| && made[i] in s.fibList && i !in Outcome(es).open && made[i].gateway !in Outcome(es).unnoticed
      ensures Right(made[i], Outcome(es).neighbours)
    {
      s.LookedUp(made, Outcome(es), i);
    }
  }
}
