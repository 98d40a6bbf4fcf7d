/**
 The locator-lookup table of the forwarding engine (sfmc.c): 256 hash chains, and a dump that is resumed by position.

 `All()` lists the entries in bucket and chain order. The table stands for the finite map `locators`.
 */
module LocatorTable {
  import opened Wrappers
  import opened TrieGraph
  import opened TrieWalk
  import opened Routes

  const SFMC_HASH_SIZE := 256

  type U64 = x: int | 0 <= x < 0x1_0000_0000_0000_0000

  /** struct madcap_obj_entry */
  datatype Entry = Entry(id: U64, dst: Ip)

  /** The entries of the first buckets, in order. */
  function Flat(chains: seq<seq<Entry>>): seq<Entry> {
    if chains == [] then [] else Flat(chains[..|chains| - 1]) + chains[|chains| - 1]
  }

  lemma {:induction false} FlatMember(chains: seq<seq<Entry>>, e: Entry)
    ensures e in Flat(chains) <==> exists b :: 0 <= b < |chains| && e in chains[b]
  {
    if chains != [] {
      var n := |chains| - 1;
      FlatMember(chains[..n], e);
      assert forall b :: 0 <= b < n ==> chains[..n][b] == chains[b];
      if e in chains[n] {
        assert e in Flat(chains);
      }
    }
  }

  /** Every chain holds only entries that hash to it, no two of them with the same id. */
  ghost predicate ChainsOk(chains: seq<seq<Entry>>, hash: U64 -> nat) {
    && (forall b, e {:trigger e in chains[b]} :: 0 <= b < |chains| && e in chains[b] ==> hash(e.id) == b)
    && (forall b {:trigger UniqueIds(chains[b])} :: 0 <= b < |chains| ==> UniqueIds(chains[b]))
  }

  ghost predicate UniqueIds(s: seq<Entry>) {
    forall i, j :: 0 <= i < j < |s| ==> s[i].id != s[j].id
  }

  lemma {:induction false} FlatUnique(chains: seq<seq<Entry>>, hash: U64 -> nat)
    requires ChainsOk(chains, hash)
    ensures UniqueIds(Flat(chains))
  {
    if chains != [] {
      var n := |chains| - 1;
      var init := chains[..n];
      forall b | 0 <= b < |init|
        ensures UniqueIds(init[b])
      {
        assert UniqueIds(chains[b]);
      }
      forall b, e: Entry | 0 <= b < |init| && e in init[b]
        ensures hash(e.id) == b
      {
        assert e in chains[b];
      }
      FlatUnique(init, hash);
      var f: seq<Entry>, last: seq<Entry> := Flat(init), chains[n];
      assert UniqueIds(chains[n]);
      forall i, j | 0 <= i < j < |f + last|
        ensures (f + last)[i].id != (f + last)[j].id
      {
        if i < |f| <= j {
          FlatMember(init, f[i]);
          var b :| 0 <= b < |init| && f[i] in init[b];
          assert f[i] in chains[b] && last[j - |f|] in chains[n];
        }
      }
    }
  }

  /** The map the chains stand for. */
  ghost predicate Locates(chains: seq<seq<Entry>>, hash: U64 -> nat, locators: map<U64, Ip>) {
    && (forall b, e {:trigger e in chains[b]} :: 0 <= b < |chains| && e in chains[b] ==> e.id in locators && locators[e.id] == e.dst)
    && (forall id {:trigger id in locators} :: id in locators ==>
          hash(id) < |chains| && Entry(id, locators[id]) in chains[hash(id)])
  }

  /** A chain without the entry at `i`. */
  lemma ChainWithout(s: seq<Entry>, i: nat)
    requires UniqueIds(s) && i < |s|
    ensures UniqueIds(Without(s, i)) && forall e :: e in Without(s, i) <==> e in s && e.id != s[i].id
  {
    WithoutElems(s, i);
    forall e | e in s && e != s[i]
      ensures e.id != s[i].id
    {
      var j :| 0 <= j < |s| && s[j] == e;
    }
  }

  lemma LocatesAdd(chains: seq<seq<Entry>>, hash: U64 -> nat, locators: map<U64, Ip>, e: Entry)
    requires ChainsOk(chains, hash) && Locates(chains, hash, locators) && hash(e.id) < |chains| && e.id !in locators
    ensures var c := chains[hash(e.id) := [e] + chains[hash(e.id)]];
            ChainsOk(c, hash) && Locates(c, hash, locators[e.id := e.dst])
  {
    var h := hash(e.id);
    var c, to := chains[h := [e] + chains[h]], locators[e.id := e.dst];
    forall b | 0 <= b < |c|
      ensures UniqueIds(c[b])
    {
      assert UniqueIds(chains[b]);
      assert forall i :: 0 <= i < |chains[b]| ==> chains[b][i] in chains[b];
    }
    forall b, x: Entry | 0 <= b < |c| && x in c[b]
      ensures hash(x.id) == b && x.id in to && to[x.id] == x.dst
    {
      assert x == e || x in chains[b];
    }
    forall id | id in to
      ensures hash(id) < |c| && Entry(id, to[id]) in c[hash(id)]
    {
      if id == e.id {
        assert Entry(id, to[id]) == e;
      } else {
        assert id in locators && Entry(id, locators[id]) in chains[hash(id)];
      }
    }
  }

  lemma LocatesDel(chains: seq<seq<Entry>>, hash: U64 -> nat, locators: map<U64, Ip>, h: nat, i: nat)
    requires ChainsOk(chains, hash) && Locates(chains, hash, locators) && h < |chains| && i < |chains[h]|
    ensures var c := chains[h := Without(chains[h], i)];
            ChainsOk(c, hash) && Locates(c, hash, locators - {chains[h][i].id})
  {
    var gone := chains[h][i].id;
    var c, to := chains[h := Without(chains[h], i)], locators - {gone};
    assert UniqueIds(chains[h]);
    ChainWithout(chains[h], i);
    assert chains[h][i] in chains[h];
    forall b | 0 <= b < |c|
      ensures UniqueIds(c[b])
    {
      assert UniqueIds(chains[b]);
    }
    forall b, x: Entry | 0 <= b < |c| && x in c[b]
      ensures hash(x.id) == b && x.id in to && to[x.id] == x.dst
    {
      assert x in chains[b];
    }
    forall id | id in to
      ensures hash(id) < |c| && Entry(id, to[id]) in c[hash(id)]
    {
      assert id in locators && Entry(id, locators[id]) in chains[hash(id)];
    }
  }

  datatype Status = Ok | Exists | NoEntry

  /** The table part of struct sfmc; `hash` stands for the kernel's hash_64 with eight bits. */
  class Table {
    const chains: array<seq<Entry>>
    const hash: U64 -> nat
    ghost var locators: map<U64, Ip>

    ghost predicate Valid()
      reads this, chains
    {
      && chains.Length == SFMC_HASH_SIZE && (forall k {:trigger hash(k)} :: hash(k) < SFMC_HASH_SIZE)
      && ChainsOk(chains[..], hash) && Locates(chains[..], hash, locators)
    }

    ghost function All(): seq<Entry>
      reads chains
    {
      Flat(chains[..])
    }

    constructor (hash: U64 -> nat)
      requires forall k {:trigger hash(k)} :: hash(k) < SFMC_HASH_SIZE
      ensures Valid() && fresh(chains) && locators == map[] && this.hash == hash
    {
      this.hash := hash;
      chains := new seq<Entry>[SFMC_HASH_SIZE](_ => []);
      locators := map[];
    }

    /** Dumping the table lists the map: every locator, once. */
    lemma AllIsTable()
      requires Valid()
      ensures forall e :: e in All() <==> e.id in locators && locators[e.id] == e.dst
      ensures UniqueIds(All())
    {
      FlatUnique(chains[..], hash);
      forall e
        ensures e in All() <==> e.id in locators && locators[e.id] == e.dst
      {
        FlatMember(chains[..], e);
        if e.id in locators && locators[e.id] == e.dst {
          assert Entry(e.id, locators[e.id]) == e;
        }
      }
    }

    /** The position of an id in its chain, or the end of the chain. */
    method Scan(id: U64) returns (h: nat, i: nat)
      requires Valid()
      ensures h == hash(id) < SFMC_HASH_SIZE && i <= |chains[h]|
      ensures i < |chains[h]| ==> chains[h][i].id == id && id in locators && locators[id] == chains[h][i].dst
      ensures i == |chains[h]| ==> id !in locators
    {
      h, i := hash(id), 0;
      while i < |chains[h]| && chains[h][i].id != id
        invariant i <= |chains[h]|
        invariant forall j :: 0 <= j < i ==> chains[h][j].id != id
      {
        i := i + 1;
      }
      if i < |chains[h]| {
        assert chains[h][i] in chains[..][h];
      } else {
        NotThere(id);
      }
    }

    lemma NotThere(id: U64)
      requires Valid() && forall j :: 0 <= j < |chains[hash(id)]| ==> chains[hash(id)][j].id != id
      ensures id !in locators
    {
      assert chains[..][hash(id)] == chains[hash(id)];
    }

    /** sfmc_table_find */
    method Find(id: U64) returns (e: Option<Entry>)
      requires Valid()
      ensures e == if id in locators then Some(Entry(id, locators[id])) else Option.None
    {
      var h, i := Scan(id);
      e := if i < |chains[h]| then Some(chains[h][i]) else Option.None;
    }

    /** sfmc_llt_entry_add */
    method EntryAdd(e: Entry) returns (s: Status)
      requires Valid()
      modifies `locators, chains
      ensures Valid() && s == if e.id in old(locators) then Exists else Ok
      ensures locators == if s.Ok? then old(locators)[e.id := e.dst] else old(locators)
      ensures s.Exists? ==> chains[..] == old(chains[..])
    {
      var h, i := Scan(e.id);
      if i < |chains[h]| {
        return Exists;
      }
      LocatesAdd(chains[..], hash, locators, e);
      ghost var was := chains[..];
      chains[h] := [e] + chains[h];
      assert chains[..] == was[h := [e] + was[h]];
      locators := locators[e.id := e.dst];
      return Ok;
    }

    /** sfmc_llt_entry_del */
    method EntryDel(id: U64) returns (s: Status)
      requires Valid()
      modifies `locators, chains
      ensures Valid() && s == (if id in old(locators) then Ok else NoEntry) && locators == old(locators) - {id}
      ensures s.NoEntry? ==> chains[..] == old(chains[..])
    {
      var h, i := Scan(id);
      if i == |chains[h]| {
        return NoEntry;
      }
      LocatesDel(chains[..], hash, locators, h, i);
      ghost var was := chains[..];
      chains[h] := Without(chains[h], i);
      assert chains[..] == was[h := Without(was[h], i)];
      locators := locators - {id};
      return Ok;
    }

    /** sfmc_table_destroy */
    method Destroy()
      requires Valid()
      modifies `locators, chains
      ensures Valid() && locators == map[] && All() == []
    {
      for n := 0 to SFMC_HASH_SIZE
        invariant forall b :: 0 <= b < n ==> chains[b] == []
      {
        chains[n] := [];
      }
      locators := map[];
      FlatEmpty(chains[..]);
    }

    /** sfmc_llt_entry_dump: the entry at position `args0`, found by counting from the first bucket. */
    method EntryDump(args0: nat) returns (e: Option<Entry>, args0': nat)
      requires Valid()
      ensures e == if args0 < |All()| then Some(All()[args0]) else Option.None
      ensures args0' == 1 + if args0 < |All()| then args0 else |All()|
    {
      var cnt, n := 0, 0;
      assert chains[..0] == [] && chains[..SFMC_HASH_SIZE] == chains[..];
      while n < SFMC_HASH_SIZE
        invariant n <= SFMC_HASH_SIZE && cnt == |Flat(chains[..n])| <= args0
        invariant Flat(chains[..n]) <= All() && (n == SFMC_HASH_SIZE ==> cnt == |All()|)
      {
        assert chains[..n + 1][..n] == chains[..n];
        FlatPrefix(chains[..], n + 1);
        var i := 0;
        while i < |chains[n]|
          invariant i <= |chains[n]| && cnt == |Flat(chains[..n])| + i <= args0
        {
          if args0 > cnt {
            cnt := cnt + 1;
          } else {
            assert Flat(chains[..n + 1])[cnt] == chains[n][i];
            return Some(chains[n][i]), cnt + 1;
          }
          i := i + 1;
        }
        n := n + 1;
      }
      return Option.None, cnt + 1;
    }
  }

  lemma {:induction false} FlatEmpty(chains: seq<seq<Entry>>)
    requires forall b :: 0 <= b < |chains| ==> chains[b] == []
    ensures Flat(chains) == []
  {
    if chains != [] {
      FlatEmpty(chains[..|chains| - 1]);
    }
  }

  lemma {:induction false} FlatPrefix(chains: seq<seq<Entry>>, n: nat)
    requires n <= |chains|
    ensures Flat(chains[..n]) <= Flat(chains)
    decreases |chains|
  {
    if n < |chains| {
      var init := chains[..|chains| - 1];
      FlatPrefix(init, n);
      assert init[..n] == chains[..n];
    } else {
      assert chains[..n] == chains;
    }
  }
}
