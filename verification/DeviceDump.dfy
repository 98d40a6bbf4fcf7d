/**
 The device slots of madcap.c and the dump over all of them, which resumes from a device index and a position within
 that device.
 */
module DeviceDump {
  import opened Wrappers
  import opened TrieGraph
  import opened TrieWalk
  import opened Routes
  import opened LocatorTable

  const MADCAPDEV_PERNET_NUM := 16

  /** struct madcap_ops, of which only the presence of mco_llt_entry_dump matters here */
  class Ops {
    const dumps: bool

    constructor (dumps: bool)
      ensures this.dumps == dumps
    {
      this.dumps := dumps;
    }
  }

  /** A net_device with its table */
  class NetDev {
    const ifindex: nat
    const table: Table

    constructor (ifindex: nat, table: Table)
      ensures this.ifindex == ifindex && this.table == table
    {
      this.ifindex, this.table := ifindex, table;
    }
  }

  /** What is sent to user space: an entry and the device it is from. */
  datatype Msg = Msg(ifindex: nat, e: Entry)

  /** Slots hold no device twice, and a device exactly when they hold operations. */
  ghost predicate SlotsOk(dev: seq<NetDev?>, ops: seq<Ops?>) {
    && |dev| == |ops|
    && (forall i :: 0 <= i < |dev| ==> (dev[i] == null <==> ops[i] == null))
    && (forall i, j :: 0 <= i < j < |dev| && dev[i] != null ==> dev[i] != dev[j])
  }

  predicate Wanted(d: NetDev?, o: Ops?, ifindex: nat) {
    d != null && o != null && (ifindex == 0 || d.ifindex == ifindex)
  }

  /** The slots a dump is for, in order. */
  function Chosen(dev: seq<NetDev?>, ops: seq<Ops?>, ifindex: nat): (c: seq<nat>)
    requires |dev| == |ops|
    ensures forall i {:trigger c[i]} :: 0 <= i < |c| ==> c[i] < |dev| && Wanted(dev[c[i]], ops[c[i]], ifindex)
  {
    if dev == [] then [] else
      var n := |dev| - 1;
      Chosen(dev[..n], ops[..n], ifindex) + if Wanted(dev[n], ops[n], ifindex) then [n] else []
  }

  lemma {:induction false} ChosenMember(dev: seq<NetDev?>, ops: seq<Ops?>, ifindex: nat, n: nat)
    requires |dev| == |ops| && n < |dev| && Wanted(dev[n], ops[n], ifindex)
    ensures n in Chosen(dev, ops, ifindex)
    decreases |dev|
  {
    var k := |dev| - 1;
    if n < k {
      ChosenMember(dev[..k], ops[..k], ifindex, n);
    }
  }

  lemma {:induction false} ChosenPrefix(dev: seq<NetDev?>, ops: seq<Ops?>, ifindex: nat, n: nat)
    requires |dev| == |ops| && n <= |dev|
    ensures Chosen(dev[..n], ops[..n], ifindex) <= Chosen(dev, ops, ifindex)
    decreases |dev|
  {
    if n < |dev| {
      var k := |dev| - 1;
      ChosenPrefix(dev[..k], ops[..k], ifindex, n);
      assert dev[..k][..n] == dev[..n] && ops[..k][..n] == ops[..n];
    } else {
      assert dev[..n] == dev && ops[..n] == ops;
    }
  }

  /** The messages of one device whose table holds `all`. */
  function Listed(d: NetDev, o: Ops, all: seq<Entry>): (l: seq<Msg>)
    ensures |l| == if o.dumps then |all| else 0
    ensures forall i :: 0 <= i < |l| ==> l[i] == Msg(d.ifindex, all[i])
  {
    if o.dumps then seq(|all|, i requires 0 <= i < |all| => Msg(d.ifindex, all[i])) else []
  }

  lemma ListedOf(d: NetDev, o: Ops)
    requires d.table.Valid()
    ensures NoDup(Listed(d, o, d.table.All()))
    ensures forall m :: m in Listed(d, o, d.table.All()) <==> o.dumps && Holds(d, m)
  {
    d.table.AllIsTable();
    var l, all := Listed(d, o, d.table.All()), d.table.All();
    forall m: Msg
      ensures m in l <==> o.dumps && Holds(d, m)
    {
      if o.dumps && Holds(d, m) {
        var i :| 0 <= i < |all| && all[i] == m.e;
        assert l[i] == m;
      }
      if m in l {
        var i :| 0 <= i < |l| && l[i] == m;
        assert all[i] in all;
      }
    }
  }

  /** `m` tells of an entry in the table of `d`. */
  ghost predicate Holds(d: NetDev, m: Msg)
    reads d.table
  {
    m.ifindex == d.ifindex && m.e.id in d.table.locators && d.table.locators[m.e.id] == m.e.dst
  }

  /** One list per chosen slot. */
  function ListsOf(dev: seq<NetDev?>, ops: seq<Ops?>, ifindex: nat, contents: map<nat, seq<Entry>>): (ls: seq<seq<Msg>>)
    requires |dev| == |ops| && forall i :: 0 <= i < |dev| ==> i in contents
    ensures var c := Chosen(dev, ops, ifindex);
            |ls| == |c| && forall i {:trigger ls[i]} :: 0 <= i < |c| ==> ls[i] == Listed(dev[c[i]], ops[c[i]], contents[c[i]])
  {
    var c := Chosen(dev, ops, ifindex);
    seq(|c|, i requires 0 <= i < |c| => Listed(dev[c[i]], ops[c[i]], contents[c[i]]))
  }

  // ---- cursors -------------------------------------------------------------------------------------------------------

  /** cb->args: args1 is an index into the chosen devices, args0 a position in that device's list. */
  datatype Cursor = Cursor(args0: nat, args1: nat)

  predicate CursorOk(lists: seq<seq<Msg>>, c: Cursor) {
    c.args1 <= |lists| && if c.args1 == |lists| then c.args0 == 0 else c.args0 <= |lists[c.args1]|
  }

  /** What is still to be sent. */
  function Rest(lists: seq<seq<Msg>>, c: Cursor): seq<Msg>
    requires CursorOk(lists, c)
    decreases |lists| - c.args1
  {
    if c.args1 == |lists| then [] else lists[c.args1][c.args0..] + Rest(lists, Cursor(0, c.args1 + 1))
  }

  /** A whole dump: every list, in order. */
  function Whole(lists: seq<seq<Msg>>): seq<Msg> {
    Rest(lists, Cursor(0, 0))
  }

  lemma {:induction false} RestMember(lists: seq<seq<Msg>>, k: nat, m: Msg)
    requires k <= |lists|
    ensures m in Rest(lists, Cursor(0, k)) <==> exists i :: k <= i < |lists| && m in lists[i]
    decreases |lists| - k
  {
    if k < |lists| {
      RestMember(lists, k + 1, m);
      assert lists[k][0..] == lists[k];
      assert m in Rest(lists, Cursor(0, k)) <==> m in lists[k] || m in Rest(lists, Cursor(0, k + 1));
    }
  }

  lemma {:induction false} RestNoDup(lists: seq<seq<Msg>>, k: nat)
    requires k <= |lists| && (forall i {:trigger lists[i]} :: 0 <= i < |lists| ==> NoDup(lists[i]))
    requires forall i, j, m {:trigger m in lists[i], m in lists[j]} :: 0 <= i < j < |lists| ==> !(m in lists[i] && m in lists[j])
    ensures NoDup(Rest(lists, Cursor(0, k)))
    decreases |lists| - k
  {
    if k < |lists| {
      RestNoDup(lists, k + 1);
      assert lists[k][0..] == lists[k];
      forall m | m in lists[k]
        ensures m !in Rest(lists, Cursor(0, k + 1))
      {
        RestMember(lists, k + 1, m);
      }
      NoDupConcat(lists[k], Rest(lists, Cursor(0, k + 1)));
    }
  }

  datatype Errno = Zero | EExist | ENoMem | ENoEnt

  /** struct madcap_net */
  class MadNet {
    const dev: array<NetDev?>
    const ops: array<Ops?>

    ghost predicate Valid()
      reads dev, ops
    {
      && dev.Length == ops.Length == MADCAPDEV_PERNET_NUM
      && SlotsOk(dev[..], ops[..])
    }

    /** All devices in the slots have a valid table. */
    ghost predicate TablesOk()
      reads dev, set i | 0 <= i < dev.Length && dev[i] != null :: dev[i].table, set i | 0 <= i < dev.Length && dev[i] != null :: dev[i].table.chains
    {
      forall i {:trigger dev[i]} :: 0 <= i < dev.Length && dev[i] != null ==> dev[i].table.Valid()
    }

    /** The registered devices. */
    ghost function Registered(): map<NetDev, Ops>
      requires Valid()
      reads dev, ops
    {
      map i | 0 <= i < MADCAPDEV_PERNET_NUM && dev[i] != null :: dev[i] := ops[i]
    }

    constructor ()
      ensures Valid() && fresh(dev) && fresh(ops) && Registered() == map[]
    {
      dev := new NetDev?[MADCAPDEV_PERNET_NUM](_ => null);
      ops := new Ops?[MADCAPDEV_PERNET_NUM](_ => null);
    }

    /** get_madcap_ops */
    method GetOps(d: NetDev) returns (o: Ops?)
      requires Valid()
      ensures o == if d in Registered() then Registered()[d] else null
    {
      for n := 0 to MADCAPDEV_PERNET_NUM
        invariant forall i :: 0 <= i < n ==> dev[i] != d
      {
        if dev[n] == d {
          return ops[n];
        }
      }
      return null;
    }

    /** madcap_register_device */
    method Register(d: NetDev, o: Ops) returns (err: Errno)
      requires Valid()
      modifies dev, ops
      ensures Valid()
      ensures err.EExist? <==> d in old(Registered())
      ensures err.Zero? || err.EExist? || err.ENoMem?
      ensures Registered() == if err.Zero? then old(Registered())[d := o] else old(Registered())
      ensures err.ENoMem? <==> d !in old(Registered()) && forall i :: 0 <= i < MADCAPDEV_PERNET_NUM ==> old(dev[i]) != null
    {
      var had := GetOps(d);
      if had != null {
        return EExist;
      }
      for n := 0 to MADCAPDEV_PERNET_NUM
        invariant forall i :: 0 <= i < n ==> dev[i] != null
        invariant dev[..] == old(dev[..]) && ops[..] == old(ops[..])
      {
        if dev[n] == null {
          ops[n] := o;
          dev[n] := d;
          return Zero;
        }
      }
      return ENoMem;
    }

    /** madcap_unregister_device: the device goes, and the result is -ENOENT whether it was there or not. */
    method Unregister(d: NetDev) returns (err: Errno)
      requires Valid()
      modifies dev, ops
      ensures Valid() && Registered() == old(Registered()) - {d} && err.ENoEnt?
    {
      for n := 0 to MADCAPDEV_PERNET_NUM
        invariant forall i :: 0 <= i < MADCAPDEV_PERNET_NUM ==>
            if i < n && old(dev[i]) == d then dev[i] == null && ops[i] == null else dev[i] == old(dev[i]) && ops[i] == old(ops[i])
      {
        if dev[n] == d {
          dev[n] := null;
          ops[n] := null;
        }
      }
      return ENoEnt;
    }

    // ---- dumping -------------------------------------------------------------------------------------------------------

    ghost function Contents(): map<nat, seq<Entry>>
      reads dev, set i | 0 <= i < dev.Length && dev[i] != null :: dev[i].table.chains
    {
      map i: nat | i < dev.Length :: if dev[i] == null then [] else dev[i].table.All()
    }

    ghost function Lists(ifindex: nat): seq<seq<Msg>>
      requires Valid()
      reads dev, ops, set i | 0 <= i < dev.Length && dev[i] != null :: dev[i].table.chains
    {
      ListsOf(dev[..], ops[..], ifindex, Contents())
    }

    /** madcap_llt_entry_dump */
    method EntryDump(d: NetDev, args0: nat) returns (e: Option<Entry>, args0': nat)
      requires Valid() && d in Registered() && d.table.Valid()
      ensures var l := Listed(d, Registered()[d], d.table.All());
              if args0 < |l| then e.Some? && Msg(d.ifindex, e.value) == l[args0] && args0' == args0 + 1 else e.None?
    {
      var o := GetOps(d);
      if o != null && o.dumps {
        e, args0' := d.table.EntryDump(args0);
      } else {
        e, args0' := Option.None, args0;
      }
    }

    /** The call on the device in slot `n`, which is the chosen one with index args1. */
    method SlotDump(n: nat, ifindex: nat, c: Cursor) returns (e: Option<Entry>, args0': nat)
      requires Valid() && TablesOk() && n < MADCAPDEV_PERNET_NUM && Wanted(dev[n], ops[n], ifindex) && CursorOk(Lists(ifindex), c)
      requires c.args1 == |Chosen(dev[..n], ops[..n], ifindex)|
      ensures CursorOk(Lists(ifindex), Cursor(0, c.args1 + 1))
      ensures if e.Some?
              then CursorOk(Lists(ifindex), Cursor(args0', c.args1))
                && Rest(Lists(ifindex), c) == [Msg(dev[n].ifindex, e.value)] + Rest(Lists(ifindex), Cursor(args0', c.args1))
              else Rest(Lists(ifindex), c) == Rest(Lists(ifindex), Cursor(0, c.args1 + 1))
    {
      hide Rest, SlotsOk, Table.Valid, TablesOk, Lists, Chosen, Listed, Registered;
      ghost var lists := Lists(ifindex);
      ListOfSlot(n, ifindex);
      RestStep(lists, c);
      e, args0' := EntryDump(dev[n], c.args0);
    }

    lemma ListsLength(ifindex: nat)
      requires Valid()
      ensures |Lists(ifindex)| == |Chosen(dev[..], ops[..], ifindex)| && Chosen([], [], ifindex) == []
    {
    }

    lemma ListOfSlot(n: nat, ifindex: nat)
      requires Valid() && TablesOk() && n < MADCAPDEV_PERNET_NUM && Wanted(dev[n], ops[n], ifindex)
      ensures var k := |Chosen(dev[..n], ops[..n], ifindex)|;
              k < |Lists(ifindex)| && Lists(ifindex)[k] == Listed(dev[n], ops[n], dev[n].table.All())
      ensures dev[n] in Registered() && Registered()[dev[n]] == ops[n] && dev[n].table.Valid()
    {
      hide Table.Valid;
      ChosenNext(dev[..], ops[..], ifindex, n);
      assert dev[..][..n] == dev[..n] && ops[..][..n] == ops[..n];
    }

    /** madcap_nl_cmd_llt_entry_dump: one call. When a device has no more entries the scan of the slots starts over with the
        next device index. */
    method DumpCall(ifindex: nat, c: Cursor) returns (m: Option<Msg>, c': Cursor)
      requires Valid() && TablesOk() && CursorOk(Lists(ifindex), c)
      ensures CursorOk(Lists(ifindex), c')
      ensures var rest := Rest(Lists(ifindex), c);
              if rest == [] then m.None? && c' == Cursor(0, |Lists(ifindex)|)
              else m == Some(rest[0]) && Rest(Lists(ifindex), c') == rest[1..]
    {
      hide Rest, SlotsOk, Table.Valid, TablesOk, Lists, Chosen;
      ghost var ds, os := dev[..], ops[..];
      ghost var lists := Lists(ifindex);
      assert |lists| == |Chosen(ds, os, ifindex)| by { ListsLength(ifindex); }
      assert ds[..0] == [] && os[..0] == [] && Chosen([], [], ifindex) == [] by { ListsLength(ifindex); }
      c' := c;
      var cnt: nat, n := 0, 0;
      while n < MADCAPDEV_PERNET_NUM
        invariant 0 <= n <= MADCAPDEV_PERNET_NUM && CursorOk(lists, c') && Rest(lists, c') == Rest(lists, c)
        invariant cnt == |Chosen(ds[..n], os[..n], ifindex)| <= c'.args1
        decreases |lists| - c'.args1, MADCAPDEV_PERNET_NUM - n
      {
        ChosenNext(ds, os, ifindex, n);
        assert ds[..n] == dev[..n] && os[..n] == ops[..n];
        if ops[n] == null || dev[n] == null {
        } else if ifindex != 0 && dev[n].ifindex != ifindex {
        } else if c'.args1 > cnt {
          cnt := cnt + 1;
        } else {
          var e, args0' := SlotDump(n, ifindex, c');
          if e.Some? {
            return Some(Msg(dev[n].ifindex, e.value)), Cursor(args0', c'.args1);
          }
          cnt, n, c' := 0, -1, Cursor(0, c'.args1 + 1);
        }
        n := n + 1;
      }
      assert ds[..n] == ds && os[..n] == os;
      RestEnd(lists, c');
      m := Option.None;
    }

    /** The whole dump, as user space drives it: call until nothing comes. */
    method DumpAll(ifindex: nat) returns (out: seq<Msg>)
      requires Valid() && TablesOk()
      ensures out == Whole(Lists(ifindex))
    {
      hide Rest, Valid, TablesOk, Lists;
      ghost var lists := Lists(ifindex);
      out := [];
      var c := Cursor(0, 0);
      while true
        invariant CursorOk(lists, c) && out + Rest(lists, c) == Whole(lists)
        decreases |Rest(lists, c)|
      {
        var m;
        m, c := DumpCall(ifindex, c);
        if m.None? {
          return;
        }
        out := out + [m.value];
      }
    }

    /** A dump sends exactly the entries of the wanted devices, and none twice if no two devices share an index. */
    lemma DumpIsExact(ifindex: nat)
      requires Valid() && TablesOk()
      ensures forall m :: m in Whole(Lists(ifindex)) <==> exists d :: d in Registered() && Sends(d, ifindex, m)
      ensures (forall d, e :: d in Registered() && e in Registered() && d.ifindex == e.ifindex ==> d == e)
              ==> NoDup(Whole(Lists(ifindex)))
    {
      hide Whole, Lists, Table.Valid, TablesOk, SlotsOk;
      forall m
        ensures m in Whole(Lists(ifindex)) <==> exists d :: d in Registered() && Sends(d, ifindex, m)
      {
        SentBy(ifindex, m);
      }
      if forall d, e :: d in Registered() && e in Registered() && d.ifindex == e.ifindex ==> d == e {
        SentOnce(ifindex);
      }
    }

    lemma SentOnce(ifindex: nat)
      requires Valid() && TablesOk()
      requires forall d, e :: d in Registered() && e in Registered() && d.ifindex == e.ifindex ==> d == e
      ensures NoDup(Whole(Lists(ifindex)))
    {
      hide Rest, Table.Valid, Lists, Chosen, Listed, TablesOk, NoDup, Registered;
      var lists := Lists(ifindex);
      forall i {:trigger lists[i]} | 0 <= i < |lists|
        ensures NoDup(lists[i])
      {
        var n := SlotOfList(i, ifindex);
        ListOfSlot(n, ifindex);
        ListedOf(dev[n], ops[n]);
      }
      forall i, j, m | 0 <= i < j < |lists| && m in lists[i]
        ensures m !in lists[j]
      {
        var n := SlotOfList(i, ifindex);
        var k := SlotOfList(j, ifindex);
        ListOfSlot(n, ifindex);
        ListOfSlot(k, ifindex);
        ListedOf(dev[n], ops[n]);
        ListedOf(dev[k], ops[k]);
      }
      RestNoDup(lists, 0);
    }

    ghost predicate Sends(d: NetDev, ifindex: nat, m: Msg)
      requires Valid() && d in Registered()
      reads dev, ops, d.table
    {
      Registered()[d].dumps && (ifindex == 0 || d.ifindex == ifindex) && Holds(d, m)
    }

    lemma SlotOfDev(d: NetDev) returns (n: nat)
      requires Valid() && d in Registered()
      ensures n < MADCAPDEV_PERNET_NUM && dev[n] == d && ops[n] == Registered()[d]
    {
      n :| n < MADCAPDEV_PERNET_NUM && dev[n] == d;
    }

    lemma SlotOfList(i: nat, ifindex: nat) returns (n: nat)
      requires Valid() && i < |Lists(ifindex)|
      ensures n < MADCAPDEV_PERNET_NUM && Wanted(dev[n], ops[n], ifindex) && |Chosen(dev[..n], ops[..n], ifindex)| == i
      ensures n == Chosen(dev[..], ops[..], ifindex)[i]
    {
      n := Chosen(dev[..], ops[..], ifindex)[i];
      ChosenRank(dev[..], ops[..], ifindex, i);
      assert dev[..][..n] == dev[..n] && ops[..][..n] == ops[..n];
    }

    lemma SentBy(ifindex: nat, m: Msg)
      requires Valid() && TablesOk()
      ensures m in Whole(Lists(ifindex)) <==> exists d :: d in Registered() && Sends(d, ifindex, m)
    {
      hide Rest, Holds, Table.Valid, Lists, Chosen, Listed, Registered, SlotsOk, TablesOk;
      var lists := Lists(ifindex);
      RestMember(lists, 0, m);
      if i :| 0 <= i < |lists| && m in lists[i] {
        var n := SlotOfList(i, ifindex);
        ListOfSlot(n, ifindex);
        ListedOf(dev[n], ops[n]);
        assert Sends(dev[n], ifindex, m);
      }
      if d :| d in Registered() && Sends(d, ifindex, m) {
        var n := SlotOfDev(d);
        ListOfSlot(n, ifindex);
        ListedOf(dev[n], ops[n]);
        assert m in lists[|Chosen(dev[..n], ops[..n], ifindex)|];
      }
    }
  }

  lemma {:induction false} ChosenRank(dev: seq<NetDev?>, ops: seq<Ops?>, ifindex: nat, i: nat)
    requires |dev| == |ops| && i < |Chosen(dev, ops, ifindex)|
    ensures var n := Chosen(dev, ops, ifindex)[i]; |Chosen(dev[..n], ops[..n], ifindex)| == i
    decreases |dev|
  {
    var k := |dev| - 1;
    var init := Chosen(dev[..k], ops[..k], ifindex);
    if i < |init| {
      ChosenRank(dev[..k], ops[..k], ifindex, i);
      var n := init[i];
      assert dev[..k][..n] == dev[..n] && ops[..k][..n] == ops[..n];
    }
  }

  lemma ChosenNext(dev: seq<NetDev?>, ops: seq<Ops?>, ifindex: nat, n: nat)
    requires |dev| == |ops| && n < |dev|
    ensures var c, k := Chosen(dev, ops, ifindex), |Chosen(dev[..n], ops[..n], ifindex)|;
            if Wanted(dev[n], ops[n], ifindex)
            then |Chosen(dev[..n + 1], ops[..n + 1], ifindex)| == k + 1 && k < |c| && c[k] == n
            else |Chosen(dev[..n + 1], ops[..n + 1], ifindex)| == k
    ensures |Chosen(dev[..0], ops[..0], ifindex)| == 0
  {
    assert dev[..n + 1][..n] == dev[..n] && ops[..n + 1][..n] == ops[..n];
    ChosenPrefix(dev, ops, ifindex, n + 1);
  }

  lemma RestStep(lists: seq<seq<Msg>>, c: Cursor)
    requires CursorOk(lists, c) && c.args1 < |lists|
    ensures CursorOk(lists, Cursor(0, c.args1 + 1))
    ensures if c.args0 < |lists[c.args1]|
            then CursorOk(lists, Cursor(c.args0 + 1, c.args1)) && Rest(lists, c) == [lists[c.args1][c.args0]] + Rest(lists, Cursor(c.args0 + 1, c.args1))
            else Rest(lists, c) == Rest(lists, Cursor(0, c.args1 + 1))
  {
    var l, p, more := lists[c.args1], c.args0, Rest(lists, Cursor(0, c.args1 + 1));
    if p < |l| {
      assert l[p..] == [l[p]] + l[p + 1..];
      assert Rest(lists, Cursor(p + 1, c.args1)) == l[p + 1..] + more;
    } else {
      assert l[p..] == [];
    }
  }

  lemma RestEnd(lists: seq<seq<Msg>>, c: Cursor)
    requires CursorOk(lists, c) && c.args1 == |lists|
    ensures Rest(lists, c) == []
  {
  }
}
