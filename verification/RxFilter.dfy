/**
 The receive address filters (e1000_set_rx_mode): exact registers first, then the multicast hash table, then promiscuous bits.
 */
module RxFilter {
  import opened Checksum

  const E1000_RAR_ENTRIES := 15
  const E1000_NUM_MTA_REGISTERS := 128
  const E1000_RAH_AV := 0x8000_0000

  type Mac = a: seq<U8> | |a| == 6 witness [0, 0, 0, 0, 0, 0]

  /** A 32-bit register as its bits. */
  type Bits32 = w: seq<bool> | |w| == 32 witness seq(32, _ => false)

  // ---- the hash ------------------------------------------------------------------------------------------------------

  /** e1000_hash_mc_addr; the or-ed parts do not overlap. */
  function HashMcAddr(filterType: nat, a: Mac): (h: nat)
    ensures h < 0x1000
  {
    match filterType
    case 0 => ((a[4] / 0x10) as int + 0x10 * (a[5] as int)) % 0x1000
    case 1 => ((a[4] / 8) as int + 0x20 * (a[5] as int)) % 0x1000
    case 2 => ((a[4] / 4) as int + 0x40 * (a[5] as int)) % 0x1000
    case 3 => ((a[4] as int) + 0x100 * (a[5] as int)) % 0x1000
    case _ => 0
  }

  /** The address as the 48-bit number the hardware sees. */
  function Value(a: Mac): nat {
    (a[0] as int) + 0x100 * (a[1] as int) + 0x1_0000 * (a[2] as int) + 0x100_0000 * (a[3] as int)
    + 0x1_0000_0000 * (a[4] as int) + 0x100_0000_0000 * (a[5] as int)
  }

  /** Byte `i` of the number is byte `i` of the address: the first on the wire is the lowest. */
  lemma ValueBytes(a: Mac)
    ensures Value(a) % 0x100 == a[0] && Value(a) / 0x100 % 0x100 == a[1] && Value(a) / 0x1_0000 % 0x100 == a[2]
    ensures Value(a) / 0x100_0000 % 0x100 == a[3] && Value(a) / 0x1_0000_0000 % 0x100 == a[4] && Value(a) / 0x100_0000_0000 == a[5]
  {
    var v1 := (a[1] as int) + 0x100 * (a[2] as int) + 0x1_0000 * (a[3] as int) + 0x100_0000 * (a[4] as int) + 0x1_0000_0000 * (a[5] as int);
    var v2 := (a[2] as int) + 0x100 * (a[3] as int) + 0x1_0000 * (a[4] as int) + 0x100_0000 * (a[5] as int);
    var v3 := (a[3] as int) + 0x100 * (a[4] as int) + 0x1_0000 * (a[5] as int);
    var v4 := (a[4] as int) + 0x100 * (a[5] as int);
    assert Value(a) / 0x100 == v1;
    assert Value(a) / 0x1_0000 == v2;
    assert Value(a) / 0x100_0000 == v3;
    assert Value(a) / 0x1_0000_0000 == v4;
  }

  /** The hardware takes twelve bits of the address, starting at bit 36, 35, 34 or 32. */
  function HardwareHash(filterType: nat, a: Mac): (h: nat)
    ensures h < 0x1000
  {
    match filterType
    case 0 => Value(a) / 0x10_0000_0000 % 0x1000
    case 1 => Value(a) / 0x8_0000_0000 % 0x1000
    case 2 => Value(a) / 0x4_0000_0000 % 0x1000
    case 3 => Value(a) / 0x1_0000_0000 % 0x1000
    case _ => 0
  }

  lemma Upper(low: int, b4: int, b5: int, v: int)
    requires 0 <= low < 0x1_0000_0000 && 0 <= b4 < 0x100 && 0 <= b5 < 0x100 && v == low + 0x1_0000_0000 * b4 + 0x100_0000_0000 * b5
    ensures v / 0x10_0000_0000 == b4 / 0x10 + 0x10 * b5
    ensures v / 0x8_0000_0000 == b4 / 8 + 0x20 * b5
  {
  }

  lemma Upper'(low: int, b4: int, b5: int, v: int)
    requires 0 <= low < 0x1_0000_0000 && 0 <= b4 < 0x100 && 0 <= b5 < 0x100 && v == low + 0x1_0000_0000 * b4 + 0x100_0000_0000 * b5
    ensures v / 0x4_0000_0000 == b4 / 4 + 0x40 * b5
    ensures v / 0x1_0000_0000 == b4 + 0x100 * b5
  {
  }

  lemma HashAgrees(filterType: nat, a: Mac)
    ensures HashMcAddr(filterType, a) == HardwareHash(filterType, a)
  {
    var low := (a[0] as int) + 0x100 * (a[1] as int) + 0x1_0000 * (a[2] as int) + 0x100_0000 * (a[3] as int);
    Upper(low, a[4], a[5], Value(a));
    Upper'(low, a[4], a[5], Value(a));
  }

  // ---- registers -----------------------------------------------------------------------------------------------------

  /** What e1000_rar_set writes for an address. */
  function RarLow(a: Mac): nat {
    (a[0] as int) + 0x100 * (a[1] as int) + 0x1_0000 * (a[2] as int) + 0x100_0000 * (a[3] as int)
  }

  function RarHigh(a: Mac): nat {
    (a[4] as int) + 0x100 * (a[5] as int) + E1000_RAH_AV
  }

  /** The two registers together are the number of the address, below the valid bit. */
  lemma RarIsValue(a: Mac)
    ensures RarLow(a) < 0x1_0000_0000 && RarLow(a) + 0x1_0000_0000 * (RarHigh(a) - E1000_RAH_AV) == Value(a)
  {
  }

  /** The hardware matches an address with a register pair: the valid bit is set, and the 48 bits below are its number. */
  ghost predicate Matched(ra: seq<nat>, k: nat, a: Mac) {
    2 * k + 1 < |ra| && ra[2 * k] < 0x1_0000_0000 && E1000_RAH_AV <= ra[2 * k + 1]
    && ra[2 * k] + 0x1_0000_0000 * (ra[2 * k + 1] - E1000_RAH_AV) == Value(a)
  }

  /** What the driver writes for an address is what the hardware matches with it. */
  lemma HoldsIsMatched(ra: seq<nat>, k: nat, a: Mac)
    ensures Holds(ra, k, a) <==> Matched(ra, k, a)
  {
    RarIsValue(a);
  }

  /** Two addresses share no register contents. */
  lemma RarInjective(a: Mac, b: Mac)
    requires RarLow(a) == RarLow(b) && RarHigh(a) == RarHigh(b)
    ensures a == b
  {
    SameDigits(a[0], a[1], a[2], a[3], b[0], b[1], b[2], b[3]);
    SameDigits(a[4], a[5], 0, 0, b[4], b[5], 0, 0);
  }

  lemma SameDigits(a: U8, b: U8, c: U8, d: U8, a': U8, b': U8, c': U8, d': U8)
    requires (a as int) + 0x100 * (b as int) + 0x1_0000 * (c as int) + 0x100_0000 * (d as int)
             == (a' as int) + 0x100 * (b' as int) + 0x1_0000 * (c' as int) + 0x100_0000 * (d' as int)
    ensures a == a' && b == b' && c == c' && d == d'
  {
    FirstDigit(a, a', (b as int) + 0x100 * (c as int) + 0x1_0000 * (d as int), (b' as int) + 0x100 * (c' as int) + 0x1_0000 * (d' as int));
    FirstDigit(b, b', (c as int) + 0x100 * (d as int), (c' as int) + 0x100 * (d' as int));
    FirstDigit(c, c', d, d');
  }

  lemma FirstDigit(a: U8, a': U8, x: int, x': int)
    requires (a as int) + 0x100 * x == (a' as int) + 0x100 * x'
    ensures a == a' && x == x'
  {
  }

  /** Register pair `k` holds the address `a`. */
  ghost predicate Holds(ra: seq<nat>, k: nat, a: Mac) {
    2 * k + 1 < |ra| && ra[2 * k] == RarLow(a) && ra[2 * k + 1] == RarHigh(a)
  }

  /** Pairs 1 to `n` hold the addresses `l` in order, and pair 0 and the pairs behind 14 are as in `ra0`. */
  ghost predicate Loaded(ra0: seq<nat>, ra: seq<nat>, l: seq<Mac>) {
    && |ra| == |ra0| == 32
    && (forall i {:trigger l[i]} :: 0 <= i < |l| && i + 1 < E1000_RAR_ENTRIES ==> Holds(ra, i + 1, l[i]))
    && (forall j :: 0 <= j < 2 || 2 * E1000_RAR_ENTRIES <= j < 32 ==> ra[j] == ra0[j])
  }

  /** Pairs from `from` on are clear. */
  ghost predicate Cleared(ra: seq<nat>, from: nat, to: nat) {
    forall j :: 2 * from <= j < 2 * to && j < |ra| ==> ra[j] == 0
  }

  // ---- the hash table ------------------------------------------------------------------------------------------------

  function Reg(h: nat): (r: nat)
    ensures r < E1000_NUM_MTA_REGISTERS
  {
    h / 0x20 % 0x80
  }

  function Bit(h: nat): (b: nat)
    ensures b < 0x20
  {
    h % 0x20
  }

  ghost predicate HitBy(filterType: nat, l: seq<Mac>, r: nat, b: nat) {
    exists i :: 0 <= i < |l| && Reg(HashMcAddr(filterType, l[i])) == r && Bit(HashMcAddr(filterType, l[i])) == b
  }

  /** Exactly the bits of the addresses `l` are set. */
  ghost predicate Hashed(filterType: nat, mta: seq<Bits32>, l: seq<Mac>) {
    && |mta| == E1000_NUM_MTA_REGISTERS
    && forall r, b {:trigger mta[r][b]} :: 0 <= r < |mta| && 0 <= b < 32 ==> (mta[r][b] <==> HitBy(filterType, l, r, b))
  }

  lemma HashedSnoc(filterType: nat, mta: seq<Bits32>, l: seq<Mac>, a: Mac)
    requires Hashed(filterType, mta, l)
    ensures var h := HashMcAddr(filterType, a);
            Hashed(filterType, mta[Reg(h) := mta[Reg(h)][Bit(h) := true]], l + [a])
  {
    hide HashMcAddr, Reg, Bit;
    var h, l' := HashMcAddr(filterType, a), l + [a];
    var mta' := mta[Reg(h) := mta[Reg(h)][Bit(h) := true]];
    forall r, b | 0 <= r < |mta'| && 0 <= b < 32
      ensures mta'[r][b] <==> HitBy(filterType, l', r, b)
    {
      if HitBy(filterType, l, r, b) {
        var i :| 0 <= i < |l| && Reg(HashMcAddr(filterType, l[i])) == r && Bit(HashMcAddr(filterType, l[i])) == b;
        assert l'[i] == l[i];
      }
      if r == Reg(h) && b == Bit(h) {
        assert l'[|l|] == a;
      }
      if HitBy(filterType, l', r, b) {
        var i :| 0 <= i < |l'| && Reg(HashMcAddr(filterType, l'[i])) == r && Bit(HashMcAddr(filterType, l'[i])) == b;
        assert i < |l| ==> l'[i] == l[i];
      }
    }
  }

  // ---- what is where -------------------------------------------------------------------------------------------------

  /** Unicast filtering by exact registers is on. */
  predicate UseUc(promisc: bool, uc: seq<Mac>) {
    !promisc && |uc| < E1000_RAR_ENTRIES
  }

  /** The addresses that compete for the exact registers, in order of precedence. */
  function Wanted(promisc: bool, uc: seq<Mac>, mc: seq<Mac>): seq<Mac> {
    (if UseUc(promisc, uc) then uc else []) + mc
  }

  function Fitting(l: seq<Mac>): nat {
    if |l| < E1000_RAR_ENTRIES then |l| else E1000_RAR_ENTRIES - 1
  }

  /** The state of all filter registers after the lists `l` have been loaded. */
  ghost predicate Programmed(filterType: nat, ra0: seq<nat>, ra: seq<nat>, mta: seq<Bits32>, l: seq<Mac>) {
    && Loaded(ra0, ra, l[..Fitting(l)]) && Cleared(ra, Fitting(l) + 1, E1000_RAR_ENTRIES)
    && Hashed(filterType, mta, l[Fitting(l)..])
  }

  /** The hardware finds the address in an exact register. */
  ghost predicate Exact(ra: seq<nat>, a: Mac) {
    exists k :: 0 <= k < 16 && Matched(ra, k, a)
  }

  /** The hash table as one row of 4096 bits. */
  function Row(mta: seq<Bits32>): (r: seq<bool>)
    ensures |r| == 32 * |mta|
  {
    if mta == [] then [] else mta[0] + Row(mta[1..])
  }

  lemma {:induction false} RowAt(mta: seq<Bits32>, r: nat, b: nat)
    requires r < |mta| && b < 32
    ensures Row(mta)[32 * r + b] == mta[r][b]
  {
    if r > 0 {
      RowAt(mta[1..], r - 1, b);
      assert Row(mta)[32 * r + b] == Row(mta[1..])[32 * (r - 1) + b];
    }
  }

  /** The hardware finds the bit of the address in the hash table. */
  ghost predicate InTable(filterType: nat, mta: seq<Bits32>, a: Mac) {
    |mta| == E1000_NUM_MTA_REGISTERS && Row(mta)[HardwareHash(filterType, a)]
  }

  /** Register and bit number of a hash are its place in the row. */
  lemma HashPlace(mta: seq<Bits32>, h: nat)
    requires |mta| == E1000_NUM_MTA_REGISTERS && h < 0x1000
    ensures Row(mta)[h] == mta[Reg(h)][Bit(h)]
  {
    RowAt(mta, Reg(h), Bit(h));
    assert h == 32 * Reg(h) + Bit(h);
  }

  /** Every loaded address is found, in a register or in the table. */
  lemma LoadedIsFound(filterType: nat, ra0: seq<nat>, ra: seq<nat>, mta: seq<Bits32>, l: seq<Mac>, i: nat)
    requires Programmed(filterType, ra0, ra, mta, l) && i < |l|
    ensures if i < Fitting(l) then Exact(ra, l[i]) else InTable(filterType, mta, l[i])
  {
    hide HashMcAddr, HardwareHash, Reg, Bit, RarLow, RarHigh, Row, Value;
    HashAgrees(filterType, l[i]);
    var n := Fitting(l);
    if i < n {
      assert l[..n][i] == l[i] && Holds(ra, i + 1, l[i]);
      HoldsIsMatched(ra, i + 1, l[i]);
    } else {
      HashPlace(mta, HashMcAddr(filterType, l[i]));
      var h := HashMcAddr(filterType, l[i]);
      assert l[n..][i - n] == l[i];
      assert HitBy(filterType, l[n..], Reg(h), Bit(h));
    }
  }

  /** Nothing else is in registers 1 to 14, and the table accepts only addresses that share the hash of a loaded one. */
  lemma FoundIsLoaded(filterType: nat, ra0: seq<nat>, ra: seq<nat>, mta: seq<Bits32>, l: seq<Mac>, a: Mac)
    requires Programmed(filterType, ra0, ra, mta, l)
    ensures forall k :: 1 <= k < E1000_RAR_ENTRIES && Matched(ra, k, a) ==> a in l
    ensures InTable(filterType, mta, a) ==> exists b :: b in l && HardwareHash(filterType, b) == HardwareHash(filterType, a)
  {
    var n := Fitting(l);
    forall k | 1 <= k < E1000_RAR_ENTRIES && Matched(ra, k, a)
      ensures a in l
    {
      HoldsIsMatched(ra, k, a);
      if k <= n {
        assert l[..n][k - 1] == l[k - 1] && Holds(ra, k, l[k - 1]);
        RarInjective(a, l[k - 1]);
      }
    }
    if InTable(filterType, mta, a) {
      var h := HardwareHash(filterType, a);
      HashPlace(mta, h);
      assert HitBy(filterType, l[n..], Reg(h), Bit(h));
      var i :| 0 <= i < |l[n..]| && Reg(HashMcAddr(filterType, l[n..][i])) == Reg(h) && Bit(HashMcAddr(filterType, l[n..][i])) == Bit(h);
      HashAgrees(filterType, l[n + i]);
      SameHash(h, HashMcAddr(filterType, l[n + i]));
      assert l[n + i] in l;
    }
  }

  /** Register and bit number together are the whole hash. */
  lemma SameHash(h: nat, g: nat)
    requires h < 0x1000 && g < 0x1000 && Reg(h) == Reg(g) && Bit(h) == Bit(g)
    ensures h == g
  {
    assert h == 0x20 * Reg(h) + Bit(h) && g == 0x20 * Reg(g) + Bit(g);
  }

  // ---- the adapter ---------------------------------------------------------------------------------------------------

  /** The filter registers. On an 82544 a write to an odd word of the hash table spoils the even word below it. */
  class Nic {
    const filterType: nat
    const is82544: bool
    const spoiled: nat -> Bits32
    const ra: array<nat>
    const mta: array<Bits32>
    var upe: bool
    var mpe: bool
    var vfe: bool

    ghost predicate Valid() {
      ra.Length == 32 && mta.Length == E1000_NUM_MTA_REGISTERS
    }

    ghost predicate AcceptsUnicast(a: Mac)
      reads this, ra
    {
      upe || Exact(ra[..], a)
    }

    ghost predicate AcceptsMulticast(a: Mac)
      reads this, ra, mta
    {
      mpe || Exact(ra[..], a) || InTable(filterType, mta[..], a)
    }

    method WriteMta(i: nat, w: Bits32)
      requires Valid() && i < E1000_NUM_MTA_REGISTERS
      modifies mta
      ensures mta[i] == w && forall j :: 0 <= j < mta.Length && j != i && !(j == i - 1 && i % 2 == 1 && is82544) ==> mta[j] == old(mta[j])
    {
      mta[i] := w;
      if is82544 && i % 2 == 1 {
        mta[i - 1] := spoiled(i);
      }
    }

    /** e1000_rar_set */
    method RarSet(a: Mac, index: nat, ghost ra0: seq<nat>, ghost l: seq<Mac>)
      requires Valid() && 1 <= index < E1000_RAR_ENTRIES && index == |l| + 1 && Loaded(ra0, ra[..], l)
      modifies ra
      ensures Loaded(ra0, ra[..], l + [a])
    {
      hide RarLow, RarHigh;
      ghost var was, l' := ra[..], l + [a];
      ra[2 * index] := RarLow(a);
      ra[2 * index + 1] := RarHigh(a);
      forall i {:trigger l'[i]} | 0 <= i < |l'|
        ensures Holds(ra[..], i + 1, l'[i])
      {
        if i < |l| {
          assert Holds(was, i + 1, l[i]);
        }
      }
    }

    method WriteTable(mcarray: array<Bits32>)
      requires Valid() && mcarray.Length == E1000_NUM_MTA_REGISTERS && mcarray != mta
      modifies mta
      ensures mta[..] == mcarray[..]
    {
      var i := E1000_NUM_MTA_REGISTERS - 1;
      while i >= 0
        invariant -1 <= i < E1000_NUM_MTA_REGISTERS
        invariant forall j :: i < j < E1000_NUM_MTA_REGISTERS ==> mta[j] == mcarray[j]
      {
        WriteMta(i, mcarray[i]);
        i := i - 1;
      }
    }

    method ClearFrom(from: nat)
      requires Valid() && 1 <= from <= E1000_RAR_ENTRIES
      modifies ra
      ensures Cleared(ra[..], from, E1000_RAR_ENTRIES)
      ensures forall j :: 0 <= j < 2 * from || 2 * E1000_RAR_ENTRIES <= j < 32 ==> ra[j] == old(ra[j])
    {
      for i := from to E1000_RAR_ENTRIES
        invariant Cleared(ra[..], from, i)
        invariant forall j :: 0 <= j < 2 * from || 2 * i <= j < 32 ==> ra[j] == old(ra[j])
      {
        ra[2 * i] := 0;
        ra[2 * i + 1] := 0;
      }
    }

    /** The first unicast addresses go to exact registers. */
    method LoadUc(uc: seq<Mac>, ghost ra0: seq<nat>) returns (i: nat)
      requires Valid() && Loaded(ra0, ra[..], []) && |uc| < E1000_RAR_ENTRIES
      modifies ra
      ensures i == |uc| + 1 && Loaded(ra0, ra[..], uc)
    {
      i := 1;
      var j := 0;
      while j < |uc|
        invariant 0 <= j <= |uc| && i == j + 1 && Loaded(ra0, ra[..], uc[..j])
      {
        if i == E1000_RAR_ENTRIES {
          break;
        }
        RarSet(uc[j], i, ra0, uc[..j]);
        assert uc[..j] + [uc[j]] == uc[..j + 1];
        i, j := i + 1, j + 1;
      }
      assert uc[..|uc|] == uc;
    }

    /** The multicast addresses follow, and those that find no register go to the hash table. */
    method LoadMc(first: seq<Mac>, mc: seq<Mac>, start: nat, mcarray: array<Bits32>, ghost ra0: seq<nat>) returns (i: nat)
      requires Valid() && Loaded(ra0, ra[..], first) && start == |first| + 1 <= E1000_RAR_ENTRIES
      requires Hashed(filterType, mcarray[..], []) && mcarray.Length == E1000_NUM_MTA_REGISTERS
      modifies ra, mcarray
      ensures var l := first + mc;
              i == Fitting(l) + 1 && Loaded(ra0, ra[..], l[..Fitting(l)]) && Hashed(filterType, mcarray[..], l[Fitting(l)..])
    {
      hide Hashed, Loaded, HashMcAddr, Reg, Bit;
      i := start;
      ghost var l := first + mc;
      assert first == l[..i - 1] && l[i - 1..|first|] == [];
      for j := 0 to |mc|
        invariant |first| + 1 <= i <= E1000_RAR_ENTRIES && i - 1 <= |first| + j && Loaded(ra0, ra[..], l[..i - 1])
        invariant Hashed(filterType, mcarray[..], l[i - 1..|first| + j]) && mcarray.Length == E1000_NUM_MTA_REGISTERS
        invariant i < E1000_RAR_ENTRIES ==> i - 1 == |first| + j
      {
        assert l[|first| + j] == mc[j];
        if i == E1000_RAR_ENTRIES {
          assert l[i - 1..|first| + j] + [mc[j]] == l[i - 1..|first| + j + 1];
          AddHash(mc[j], mcarray, l[i - 1..|first| + j]);
        } else {
          assert l[..i - 1] + [mc[j]] == l[..i];
          RarSet(mc[j], i, ra0, l[..i - 1]);
          i := i + 1;
          assert l[i - 2..|first| + j] == [] == l[i - 1..|first| + j + 1];
        }
      }
      assert l[i - 1..|first| + |mc|] == l[i - 1..];
    }

    method AddHash(a: Mac, mcarray: array<Bits32>, ghost l: seq<Mac>)
      requires Hashed(filterType, mcarray[..], l)
      modifies mcarray
      ensures Hashed(filterType, mcarray[..], l + [a])
    {
      hide HashMcAddr, Reg, Bit;
      HashedSnoc(filterType, mcarray[..], l, a);
      var h := HashMcAddr(filterType, a);
      ghost var was := mcarray[..];
      mcarray[Reg(h)] := mcarray[Reg(h)][Bit(h) := true];
      assert mcarray[..] == was[Reg(h) := was[Reg(h)][Bit(h) := true]];
    }

    /** e1000_set_rx_mode, on anything but an 82542 revision 2.0 */
    method SetRxMode(promisc: bool, allmulti: bool, vlanUsed: bool, uc: seq<Mac>, mc: seq<Mac>)
      requires Valid()
      modifies this, ra, mta
      ensures upe == (promisc || |uc| >= E1000_RAR_ENTRIES) && mpe == (promisc || allmulti)
      ensures vfe == (!promisc && (vlanUsed || old(vfe)))
      ensures Programmed(filterType, old(ra[..]), ra[..], mta[..], Wanted(promisc, uc, mc))
      ensures (forall a :: a in uc ==> AcceptsUnicast(a)) && (forall a :: a in mc ==> AcceptsMulticast(a))
    {
      hide Hashed, Loaded, Cleared;
      ghost var ra0 := ra[..];
      if promisc {
        upe, mpe, vfe := true, true, false;
      } else {
        mpe := allmulti;
        if vlanUsed {
          vfe := true;
        }
      }
      var useUc := false;
      if |uc| > E1000_RAR_ENTRIES - 1 {
        upe := true;
      } else if !promisc {
        upe, useUc := false, true;
      }
      Program(useUc, uc, mc, Wanted(promisc, uc, mc));
      AllAccepted(promisc, uc, mc, ra0);
    }

    method Program(useUc: bool, uc: seq<Mac>, mc: seq<Mac>, ghost l: seq<Mac>)
      requires Valid() && (useUc ==> |uc| < E1000_RAR_ENTRIES) && l == (if useUc then uc else []) + mc
      modifies ra, mta
      ensures Programmed(filterType, old(ra[..]), ra[..], mta[..], l)
    {
      hide Hashed, Loaded, Cleared;
      ghost var ra0 := ra[..];
      var mcarray := new Bits32[E1000_NUM_MTA_REGISTERS](_ => seq(32, _ => false));
      Start(ra0, mcarray);
      var i := 1;
      if useUc {
        i := LoadUc(uc, ra0);
      }
      i := LoadMc(if useUc then uc else [], mc, i, mcarray, ra0);
      ghost var ra1 := ra[..];
      ClearFrom(i);
      StillLoaded(ra0, ra1, ra[..], l[..Fitting(l)]);
      WriteTable(mcarray);
    }

    lemma Start(ra0: seq<nat>, mcarray: array<Bits32>)
      requires |ra0| == 32 && mcarray.Length == E1000_NUM_MTA_REGISTERS
      requires forall r, b :: 0 <= r < mcarray.Length && 0 <= b < 32 ==> !mcarray[r][b]
      ensures Loaded(ra0, ra0, []) && Hashed(filterType, mcarray[..], [])
    {
    }

    lemma StillLoaded(ra0: seq<nat>, ra: seq<nat>, ra': seq<nat>, l: seq<Mac>)
      requires Loaded(ra0, ra, l) && |ra'| == 32 && |l| < E1000_RAR_ENTRIES
      requires forall j :: 0 <= j < 2 * (|l| + 1) || 2 * E1000_RAR_ENTRIES <= j < 32 ==> ra'[j] == ra[j]
      ensures Loaded(ra0, ra', l)
    {
      forall i {:trigger l[i]} | 0 <= i < |l|
        ensures Holds(ra', i + 1, l[i])
      {
        assert Holds(ra, i + 1, l[i]);
      }
    }

    lemma AllAccepted(promisc: bool, uc: seq<Mac>, mc: seq<Mac>, ra0: seq<nat>)
      requires Programmed(filterType, ra0, ra[..], mta[..], Wanted(promisc, uc, mc))
      requires upe == (promisc || |uc| >= E1000_RAR_ENTRIES)
      ensures (forall a :: a in uc ==> AcceptsUnicast(a)) && (forall a :: a in mc ==> AcceptsMulticast(a))
    {
      hide Programmed, Exact, InTable;
      var l := Wanted(promisc, uc, mc);
      forall a | a in uc
        ensures AcceptsUnicast(a)
      {
        if UseUc(promisc, uc) {
          var i :| 0 <= i < |uc| && uc[i] == a;
          LoadedIsFound(filterType, ra0, ra[..], mta[..], l, i);
        }
      }
      forall a | a in mc
        ensures AcceptsMulticast(a)
      {
        var i :| 0 <= i < |mc| && mc[i] == a;
        LoadedIsFound(filterType, ra0, ra[..], mta[..], l, |l| - |mc| + i);
      }
    }
  }
}
