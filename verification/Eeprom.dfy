/**
 The configuration EEPROM (e1000_hw.c, e1000_ethtool.c): word access with SPI page bursts, the checksum over the first 64 words, and
 byte access by read-modify-write.
 */
module Eeprom {
  import opened Wrappers
  import opened Checksum

  const CHECKSUM_REG := 0x3F
  const EEPROM_SUM := 0xBABA

  type U16 = x: int | 0 <= x < 0x1_0000

  /** The word at word address `w`: low byte first. */
  function WordAt(mem: seq<U8>, w: nat): U16
    requires 2 * w + 1 < |mem|
  {
    Word(mem[2 * w + 1], mem[2 * w])
  }

  /** Byte `j` of a row of words. */
  function ByteOf(ws: seq<U16>, j: nat): U8
    requires j < 2 * |ws|
  {
    if j % 2 == 0 then Low(ws[j / 2]) else High(ws[j / 2])
  }

  /** The words `ws` have replaced those from `offset` on, and nothing else has changed. */
  ghost predicate Written(mem: seq<U8>, mem': seq<U8>, offset: nat, ws: seq<U16>) {
    && |mem'| == |mem| && 2 * (offset + |ws|) <= |mem|
    && forall j {:trigger mem'[j]} :: 0 <= j < |mem| ==>
         mem'[j] == if 2 * offset <= j < 2 * (offset + |ws|) then ByteOf(ws, j - 2 * offset) else mem[j]
  }

  lemma WrittenNone(mem: seq<U8>, offset: nat)
    requires 2 * offset <= |mem|
    ensures Written(mem, mem, offset, [])
  {
  }

  /** One more word behind those already written. */
  lemma WrittenSnoc(mem: seq<U8>, mem': seq<U8>, offset: nat, ws: seq<U16>, w: U16)
    requires Written(mem, mem', offset, ws) && 2 * (offset + |ws|) + 1 < |mem|
    ensures var a := 2 * (offset + |ws|); Written(mem, mem'[a := Low(w)][a + 1 := High(w)], offset, ws + [w])
  {
    hide Low, High;
    var a, vs := 2 * (offset + |ws|), ws + [w];
    var m := mem'[a := Low(w)][a + 1 := High(w)];
    forall j | 0 <= j < |mem|
      ensures m[j] == if 2 * offset <= j < 2 * (offset + |vs|) then ByteOf(vs, j - 2 * offset) else mem[j]
    {
      if 2 * offset <= j < a {
        assert ByteOf(vs, j - 2 * offset) == ByteOf(ws, j - 2 * offset);
      } else if j == a || j == a + 1 {
        assert (j - 2 * offset) / 2 == |ws|;
      }
    }
  }

  /** Some bytes replaced. */
  function Patched(mem: seq<U8>, offset: nat, bytes: seq<U8>): (m: seq<U8>)
    requires offset + |bytes| <= |mem|
    ensures |m| == |mem|
  {
    mem[..offset] + bytes + mem[offset + |bytes|..]
  }

  /** The value word 63 must have. */
  function Complement(mem: seq<U8>): U16
    requires 2 * CHECKSUM_REG <= |mem|
  {
    (EEPROM_SUM - SumTo(mem, CHECKSUM_REG)) % 0x1_0000
  }

  /** The checksum word brought up to date. */
  function Summed(mem: seq<U8>): (m: seq<U8>)
    requires 2 * (CHECKSUM_REG + 1) <= |mem|
    ensures |m| == |mem|
  {
    mem[2 * CHECKSUM_REG := Low(Complement(mem))][2 * CHECKSUM_REG + 1 := High(Complement(mem))]
  }

  /** What e1000_set_eeprom leaves: the bytes in place, and the checksum up to date if the range starts at or before it. */
  function AfterSet(mem: seq<U8>, offset: nat, bytes: seq<U8>): (m: seq<U8>)
    requires offset + |bytes| <= |mem| && 2 * (CHECKSUM_REG + 1) <= |mem|
    ensures |m| == |mem|
  {
    if offset / 2 <= CHECKSUM_REG then Summed(Patched(mem, offset, bytes)) else Patched(mem, offset, bytes)
  }

  /** The written bytes survive: those that lie in the checksum word are what the checksum comes to. */
  ghost predicate Survives(mem: seq<U8>, offset: nat, bytes: seq<U8>)
    requires offset + |bytes| <= |mem| && 2 * (CHECKSUM_REG + 1) <= |mem|
  {
    var c := Complement(Patched(mem, offset, bytes));
    && (offset <= 126 < offset + |bytes| ==> bytes[126 - offset] == Low(c))
    && (offset <= 127 < offset + |bytes| ==> bytes[127 - offset] == High(c))
  }

  /** Bytes outside the range and the checksum word are kept; bytes in the range are as written exactly when they survive. */
  lemma AfterSetBytes(mem: seq<U8>, offset: nat, bytes: seq<U8>)
    requires offset + |bytes| <= |mem| && 2 * (CHECKSUM_REG + 1) <= |mem|
    ensures forall j :: 0 <= j < |mem| && j / 2 != CHECKSUM_REG && !(offset <= j < offset + |bytes|) ==> AfterSet(mem, offset, bytes)[j] == mem[j]
    ensures AfterSet(mem, offset, bytes)[offset..offset + |bytes|] == bytes <==> Survives(mem, offset, bytes)
  {
    hide SumTo, Low, High;
    var p, a := Patched(mem, offset, bytes), AfterSet(mem, offset, bytes);
    var back := a[offset..offset + |bytes|];
    forall i | 0 <= i < |bytes|
      ensures p[offset + i] == bytes[i] && back[i] == a[offset + i]
    {
    }
    if Survives(mem, offset, bytes) {
      forall i | 0 <= i < |bytes|
        ensures back[i] == bytes[i]
      {
        assert back[i] == a[offset + i] && p[offset + i] == bytes[i];
      }
      assert back == bytes;
    } else {
      var j := if offset <= 126 < offset + |bytes| && bytes[126 - offset] != Low(Complement(p)) then 126 else 127;
      assert back[j - offset] == a[j];
      assert back[j - offset] != bytes[j - offset];
    }
  }

  lemma {:induction false} SumOfZeros(mem: seq<U8>, n: nat)
    requires 2 * n <= |mem| && forall j :: 0 <= j < |mem| ==> mem[j] == 0
    ensures SumTo(mem, n) == 0
  {
    if n > 0 {
      SumOfZeros(mem, n - 1);
    }
  }

  /** Bytes written to the checksum word itself may be lost: zeros written there come back as 0xBABA. */
  lemma ZerosDoNotSurvive(mem: seq<U8>)
    requires |mem| == 128 && forall j :: 0 <= j < |mem| ==> mem[j] == 0
    ensures !Survives(mem, 126, [0, 0])
  {
    SumOfZeros(mem, CHECKSUM_REG);
    assert Patched(mem, 126, [0, 0]) == mem;
  }

  /** The sum of the first `n` words, on 16 bits. */
  function SumTo(mem: seq<U8>, n: nat): U16
    requires 2 * n <= |mem|
  {
    if n == 0 then 0 else (SumTo(mem, n - 1) + WordAt(mem, n - 1)) % 0x1_0000
  }

  /** A word is stored low byte first. */
  lemma WordIsLowFirst(mem: seq<U8>, w: nat)
    requires 2 * w + 1 < |mem|
    ensures WordAt(mem, w) == (mem[2 * w] as int) + 0x100 * (mem[2 * w + 1] as int)
  {
  }

  lemma AddLater(s: int, d: int, w: int)
    ensures ((s + d) % 0x1_0000 + w) % 0x1_0000 == ((s + w) % 0x1_0000 + d) % 0x1_0000
  {
    AddInside(s + d, w);
    AddInside(s + w, d);
  }

  lemma AddInside(x: int, y: int)
    ensures (x % 0x1_0000 + y) % 0x1_0000 == (x + y) % 0x1_0000
  {
    var q := x / 0x1_0000;
    assert x == 0x1_0000 * q + x % 0x1_0000;
  }

  /** How far the sums of two memories are apart that differ in one word. */
  lemma {:induction false} SumApart(mem: seq<U8>, mem': seq<U8>, v: nat, n: nat)
    requires v < n && 2 * n <= |mem| && 2 * n <= |mem'|
    requires forall w :: 0 <= w < n && w != v ==> WordAt(mem, w) == WordAt(mem', w)
    ensures SumTo(mem, n) == (SumTo(mem', n) + (WordAt(mem, v) - WordAt(mem', v))) % 0x1_0000
  {
    hide WordAt, SumTo;
    var d := WordAt(mem, v) - WordAt(mem', v);
    SumNext(mem, n - 1);
    SumNext(mem', n - 1);
    if v < n - 1 {
      SumApart(mem, mem', v, n - 1);
      AddLater(SumTo(mem', n - 1), d, WordAt(mem', n - 1));
    } else {
      SameSums(mem, mem', n - 1);
      AddInside(SumTo(mem', n - 1) + WordAt(mem', v), d);
    }
  }

  lemma SumNext(mem: seq<U8>, n: nat)
    requires 2 * n + 1 < |mem|
    ensures SumTo(mem, n + 1) == (SumTo(mem, n) + WordAt(mem, n)) % 0x1_0000
  {
  }

  lemma {:induction false} SameSums(mem: seq<U8>, mem': seq<U8>, n: nat)
    requires 2 * n <= |mem| && 2 * n <= |mem'| && forall w :: 0 <= w < n ==> WordAt(mem, w) == WordAt(mem', w)
    ensures SumTo(mem, n) == SumTo(mem', n)
  {
    hide WordAt;
    if n > 0 {
      SameSums(mem, mem', n - 1);
    }
  }

  /** The check detects every change of a single word: two memories that both pass and agree in all of the first 64 words but one agree
      there too. */
  lemma ChecksumDetects(mem: seq<U8>, mem': seq<U8>, v: nat)
    requires ChecksumOk(mem) && ChecksumOk(mem') && v <= CHECKSUM_REG
    requires forall w :: 0 <= w <= CHECKSUM_REG && w != v ==> WordAt(mem, w) == WordAt(mem', w)
    ensures mem[2 * v] == mem'[2 * v] && mem[2 * v + 1] == mem'[2 * v + 1]
  {
    hide SumTo, WordAt, Low, High;
    SumApart(mem, mem', v, CHECKSUM_REG + 1);
    SameResidue(WordAt(mem, v), WordAt(mem', v));
    Halves(mem, v);
    Halves(mem', v);
  }

  lemma SameResidue(a: U16, b: U16)
    requires EEPROM_SUM == (EEPROM_SUM + ((a as int) - (b as int))) % 0x1_0000
    ensures a == b
  {
  }

  /** The test of e1000_validate_eeprom_checksum */
  predicate ChecksumOk(mem: seq<U8>) {
    2 * (CHECKSUM_REG + 1) <= |mem| && SumTo(mem, CHECKSUM_REG + 1) == EEPROM_SUM
  }

  lemma {:induction false} SumSame(mem: seq<U8>, mem': seq<U8>, n: nat)
    requires 2 * n <= |mem| && 2 * n <= |mem'| && forall j :: 0 <= j < 2 * n ==> mem[j] == mem'[j]
    ensures SumTo(mem, n) == SumTo(mem', n)
  {
    if n > 0 {
      SumSame(mem, mem', n - 1);
    }
  }

  /** The complement to 0xBABA in word 63 makes the sum right. */
  lemma ChecksumRestored(mem: seq<U8>, mem': seq<U8>)
    requires 2 * (CHECKSUM_REG + 1) <= |mem|
    requires Written(mem, mem', CHECKSUM_REG, [(EEPROM_SUM - SumTo(mem, CHECKSUM_REG)) % 0x1_0000])
    ensures ChecksumOk(mem')
  {
    hide Low, High, SumTo, Word;
    var c: U16 := (EEPROM_SUM - SumTo(mem, CHECKSUM_REG)) % 0x1_0000;
    SumSame(mem, mem', CHECKSUM_REG);
    assert mem'[126] == ByteOf([c], 0) == Low(c) && mem'[127] == ByteOf([c], 1) == High(c);
    WordOfBytes(c);
    LastWord(mem');
  }

  lemma LastWord(mem: seq<U8>)
    requires 2 * (CHECKSUM_REG + 1) <= |mem|
    ensures SumTo(mem, CHECKSUM_REG + 1) == (SumTo(mem, CHECKSUM_REG) + WordAt(mem, CHECKSUM_REG)) % 0x1_0000
  {
  }

  // ---- pages ---------------------------------------------------------------------------------------------------------

  /** Number of the page of a byte address; pages have 8 or 32 bytes. */
  function Page(a: nat, pageSize: nat): nat {
    if pageSize == 8 then a / 8 else a / 32
  }

  predicate PageStart(a: nat, pageSize: nat) {
    if pageSize == 8 then a % 8 == 0 else a % 32 == 0
  }

  /** The chip counts up inside a page and wraps at its end. */
  function NextAddr(a: nat, pageSize: nat): nat
    requires pageSize == 8 || pageSize == 32
  {
    if PageStart(a + 1, pageSize) then a + 1 - pageSize else a + 1
  }

  /** A write burst: first word and number of words. */
  datatype Burst = Burst(first: nat, count: nat)

  /** The word address at which the page of word `w` ends. */
  function PageEnd(w: nat, pageSize: nat): (e: nat)
    ensures w < e
  {
    if pageSize == 8 then (w / 4 + 1) * 4 else (w / 16 + 1) * 16
  }

  /** The bursts for the words from `from` up to `till`: each runs to the end of its page, the last one perhaps less far. */
  function Bursts(from: nat, till: nat, pageSize: nat): seq<Burst>
    requires from <= till
    decreases till - from
  {
    if from == till then []
    else
      var e := if PageEnd(from, pageSize) < till then PageEnd(from, pageSize) else till;
      [Burst(from, e - from)] + Bursts(e, till, pageSize)
  }

  /** A burst is not empty and both bytes of all its words are on one page. */
  predicate OnePage(b: Burst, pageSize: nat) {
    b.count > 0 && forall w :: b.first <= w < b.first + b.count ==>
                     Page(2 * w, pageSize) == Page(2 * b.first, pageSize) == Page(2 * w + 1, pageSize)
  }

  /** Bursts one behind the other from `from` up to `till`. */
  ghost predicate Chained(bs: seq<Burst>, from: nat, till: nat) {
    if bs == [] then from == till else bs[0].first == from && Chained(bs[1..], from + bs[0].count, till)
  }

  /** The bursts cover each word of the range once, in order, and none leaves its page. */
  lemma {:induction false} BurstsCover(from: nat, till: nat, pageSize: nat)
    requires from <= till && (pageSize == 8 || pageSize == 32)
    ensures Chained(Bursts(from, till, pageSize), from, till)
    ensures forall b :: b in Bursts(from, till, pageSize) ==> OnePage(b, pageSize)
    decreases till - from
  {
    if from < till {
      var e := if PageEnd(from, pageSize) < till then PageEnd(from, pageSize) else till;
      BurstsCover(e, till, pageSize);
      PageEndOnPage(from, e, pageSize);
    }
  }

  lemma PageEndOnPage(from: nat, e: nat, pageSize: nat)
    requires from < e <= PageEnd(from, pageSize) && (pageSize == 8 || pageSize == 32)
    ensures OnePage(Burst(from, e - from), pageSize)
  {
    forall w | from <= w < e
      ensures Page(2 * w, pageSize) == Page(2 * from, pageSize) == Page(2 * w + 1, pageSize)
    {
      if pageSize == 8 {
        assert w / 4 == from / 4;
      } else {
        assert w / 16 == from / 16;
      }
    }
  }

  /** A page ends where the next one starts, and nowhere before. */
  lemma PageEndIs(w: nat, v: nat, pageSize: nat)
    requires w < v <= PageEnd(w, pageSize) && (pageSize == 8 || pageSize == 32)
    ensures PageStart(2 * v, pageSize) <==> v == PageEnd(w, pageSize)
  {
    if pageSize == 8 {
      BlockEnd(2 * v, w / 4, 2 * v - 8 * (w / 4), 8);
    } else {
      BlockEnd(2 * v, w / 16, 2 * v - 32 * (w / 16), 32);
    }
  }

  lemma BlockEnd(x: int, q: int, r: int, n: int)
    requires (n == 8 || n == 32) && x == n * q + r && 0 < r <= n
    ensures n == 8 ==> (x % 8 == 0 <==> r == 8)
    ensures n == 32 ==> (x % 32 == 0 <==> r == 32)
  {
    if n == 8 {
      assert x / 8 == if r == 8 then q + 1 else q;
    } else {
      assert x / 32 == if r == 32 then q + 1 else q;
    }
  }

  /** Two bytes of a word never straddle a page, and a word that is not at a page start is on the page of its predecessor. */
  lemma PageFacts(w: nat, pageSize: nat)
    requires pageSize == 8 || pageSize == 32
    ensures !PageStart(2 * w + 1, pageSize) && Page(2 * w, pageSize) == Page(2 * w + 1, pageSize)
    ensures !PageStart(2 * w + 2, pageSize) ==> Page(2 * w + 2, pageSize) == Page(2 * w, pageSize)
  {
  }

  // ---- the chip and the driver ---------------------------------------------------------------------------------------

  class Device {
    const mem: array<U8>
    const wordSize: nat
    const pageSize: nat
    const spi: bool
    /** The address latched by the last command. */
    var addr: nat
    /** All write bursts the chip has seen. */
    ghost var log: seq<Burst>

    ghost predicate Valid() {
      mem.Length == 2 * wordSize && wordSize > CHECKSUM_REG && (pageSize == 8 || pageSize == 32)
    }

    /** The write command with its address: a new burst begins. */
    method Latch(w: nat)
      modifies `addr, `log
      ensures addr == 2 * w && log == old(log) + [Burst(w, 0)]
    {
      addr, log := 2 * w, log + [Burst(w, 0)];
    }

    /** e1000_shift_out_ee_bits of a byte-swapped word: the low byte goes out first. The burst has one word more. */
    method ShiftOut(w: U16)
      requires Valid() && addr < mem.Length && NextAddr(addr, pageSize) < mem.Length && log != []
      modifies `addr, `log, mem
      ensures mem[..] == old(mem[..])[old(addr) := Low(w)][NextAddr(old(addr), pageSize) := High(w)]
      ensures addr == NextAddr(NextAddr(old(addr), pageSize), pageSize)
      ensures var n := |old(log)| - 1; log == old(log)[n := old(log)[n].(count := old(log)[n].count + 1)]
    {
      mem[addr] := Low(w);
      addr := NextAddr(addr, pageSize);
      mem[addr] := High(w);
      addr := NextAddr(addr, pageSize);
      log := log[|log| - 1 := log[|log| - 1].(count := log[|log| - 1].count + 1)];
    }

    /** The inner loop of e1000_write_eeprom_spi: words up to the end of the page. */
    method WriteBurst(offset: nat, ws: seq<U16>, start: nat, ghost mem0: seq<U8>, ghost log0: seq<Burst>) returns (widx: nat)
      requires Valid() && start < |ws| && offset + |ws| <= wordSize && addr == 2 * (offset + start) && |mem0| == mem.Length
      requires Written(mem0, mem[..], offset, ws[..start]) && log == log0 + [Burst(offset + start, 0)]
      modifies `addr, `log, mem
      ensures start < widx <= |ws| && Written(mem0, mem[..], offset, ws[..widx])
      ensures var e := PageEnd(offset + start, pageSize); offset + widx == if e < offset + |ws| then e else offset + |ws|
      ensures log == log0 + [Burst(offset + start, widx - start)]
    {
      hide Written, Page, PageStart, PageEnd, Low, High;
      widx := start;
      while widx < |ws|
        invariant start <= widx <= |ws| && Written(mem0, mem[..], offset, ws[..widx]) && |mem0| == mem.Length
        invariant addr == 2 * (offset + widx) && log == log0 + [Burst(offset + start, widx - start)]
        invariant offset + widx < PageEnd(offset + start, pageSize)
      {
        var w := offset + widx;
        PageFacts(w, pageSize);
        PageEndIs(offset + start, w + 1, pageSize);
        WrittenSnoc(mem0, mem[..], offset, ws[..widx], ws[widx]);
        assert ws[..widx] + [ws[widx]] == ws[..widx + 1];
        ShiftOut(ws[widx]);
        widx := widx + 1;
        if PageStart(2 * (offset + widx), pageSize) {
          break;
        }
      }
    }

    /** e1000_write_eeprom_spi */
    method WriteSpi(offset: nat, ws: seq<U16>)
      requires Valid() && offset + |ws| <= wordSize
      modifies `addr, `log, mem
      ensures Written(old(mem[..]), mem[..], offset, ws)
      ensures log == old(log) + Bursts(offset, offset + |ws|, pageSize)
    {
      hide Written, PageEnd;
      ghost var mem0, till := mem[..], offset + |ws|;
      WrittenNone(mem0, offset);
      ghost var bs: seq<Burst> := [];
      var widx := 0;
      assert ws[..0] == [];
      while widx < |ws|
        invariant widx <= |ws| && Written(mem0, mem[..], offset, ws[..widx]) && log == old(log) + bs
        invariant bs + Bursts(offset + widx, till, pageSize) == Bursts(offset, till, pageSize)
      {
        ghost var log0 := log;
        Latch(offset + widx);
        var start := widx;
        widx := WriteBurst(offset, ws, start, mem0, log0);
        ghost var b := Burst(offset + start, widx - start);
        assert Bursts(offset + start, till, pageSize) == [b] + Bursts(offset + widx, till, pageSize);
        assert bs + ([b] + Bursts(offset + widx, till, pageSize)) == bs + [b] + Bursts(offset + widx, till, pageSize);
        assert old(log) + bs + [b] == old(log) + (bs + [b]);
        bs := bs + [b];
      }
      assert ws[..|ws|] == ws && bs + [] == bs;
    }

    /** e1000_write_eeprom_microwire: one command per word */
    method WriteMicrowire(offset: nat, ws: seq<U16>)
      requires Valid() && offset + |ws| <= wordSize
      modifies mem
      ensures Written(old(mem[..]), mem[..], offset, ws)
    {
      hide Written, Low, High;
      ghost var mem0 := mem[..];
      WrittenNone(mem0, offset);
      assert ws[..0] == [];
      for i := 0 to |ws|
        invariant Written(mem0, mem[..], offset, ws[..i])
      {
        WrittenSnoc(mem0, mem[..], offset, ws[..i], ws[i]);
        assert ws[..i] + [ws[i]] == ws[..i + 1];
        var a := 2 * (offset + i);
        ghost var was: seq<U8> := mem[..];
        mem[a] := Low(ws[i]);
        mem[a + 1] := High(ws[i]);
        assert mem[..] == was[a := Low(ws[i])][a + 1 := High(ws[i])];
      }
      assert ws[..|ws|] == ws;
    }

    predicate InRange(offset: nat, words: nat) {
      offset < wordSize && words <= wordSize - offset && words != 0
    }

    /** e1000_write_eeprom, with a chip that answers */
    method WriteEeprom(offset: nat, ws: seq<U16>) returns (ok: bool)
      requires Valid()
      modifies `addr, `log, mem
      ensures ok <==> 0 < |ws| && offset + |ws| <= wordSize
      ensures if ok then Written(old(mem[..]), mem[..], offset, ws) else mem[..] == old(mem[..])
      ensures log == old(log) + if ok && spi then Bursts(offset, offset + |ws|, pageSize) else []
    {
      if !InRange(offset, |ws|) {
        return false;
      }
      if spi {
        WriteSpi(offset, ws);
      } else {
        WriteMicrowire(offset, ws);
      }
      return true;
    }

    /** e1000_read_eeprom, with a chip that answers */
    method ReadEeprom(offset: nat, words: nat) returns (ok: bool, ws: seq<U16>)
      requires Valid()
      ensures (ok <==> 0 < words && offset + words <= wordSize) && (ok ==> |ws| == words)
      ensures ok ==> forall i :: 0 <= i < words ==> ws[i] == WordAt(mem[..], offset + i)
    {
      ws := [];
      if !InRange(offset, words) {
        return false, ws;
      }
      for i := 0 to words
        invariant |ws| == i && forall j :: 0 <= j < i ==> ws[j] == WordAt(mem[..], offset + j)
      {
        ws := ws + [Word(mem[2 * (offset + i) + 1], mem[2 * (offset + i)])];
      }
      return true, ws;
    }

    method Sum(n: nat) returns (sum: U16)
      requires Valid() && n <= wordSize
      ensures sum == SumTo(mem[..], n)
    {
      sum := 0;
      for i := 0 to n
        invariant sum == SumTo(mem[..], i)
      {
        var _, ws := ReadEeprom(i, 1);
        sum := (sum + ws[0]) % 0x1_0000;
      }
    }

    /** e1000_validate_eeprom_checksum */
    method ValidateChecksum() returns (ok: bool)
      requires Valid()
      ensures ok == ChecksumOk(mem[..])
    {
      var sum := Sum(CHECKSUM_REG + 1);
      ok := sum == EEPROM_SUM;
    }

    /** e1000_update_eeprom_checksum */
    method UpdateChecksum()
      requires Valid()
      modifies `addr, `log, mem
      ensures mem[..] == Summed(old(mem[..])) && ChecksumOk(mem[..])
    {
      hide SumTo, Low, High;
      var sum := Sum(CHECKSUM_REG);
      var c: U16 := (EEPROM_SUM - sum) % 0x1_0000;
      ghost var was: seq<U8> := mem[..];
      var _ := WriteEeprom(CHECKSUM_REG, [c]);
      ChecksumRestored(was, mem[..]);
      forall j | 0 <= j < mem.Length
        ensures mem[j] == Summed(was)[j]
      {
        assert mem[..][j] == if 126 <= j < 128 then ByteOf([c], j - 126) else was[j];
      }
    }

    // ---- bytes -------------------------------------------------------------------------------------------------------

    /** e1000_get_eeprom. The range is inside the EEPROM, which the ethtool core sees to; None is -EINVAL. */
    method GetEeprom(offset: nat, len: nat) returns (bytes: Option<seq<U8>>)
      requires Valid() && offset + len <= mem.Length
      ensures bytes == if len == 0 then None else Some(mem[offset..offset + len])
    {
      if len == 0 {
        return None;
      }
      var first, last := offset / 2, (offset + len - 1) / 2;
      var ws := ReadRow(first, last - first + 1);
      UnpackedWords(mem[..], first, ws);
      var buff, skip := Unpack(ws), offset % 2;
      Slice(mem[..], 2 * first, buff, skip, len);
      return Some(buff[skip..skip + len]);
    }

    /** SPI chips are read at once, others word by word. */
    method ReadRow(first: nat, words: nat) returns (ws: seq<U16>)
      requires Valid() && InRange(first, words)
      ensures |ws| == words && forall i :: 0 <= i < words ==> ws[i] == WordAt(mem[..], first + i)
    {
      if spi {
        var _, row := ReadEeprom(first, words);
        return row;
      }
      ws := [];
      for i := 0 to words
        invariant |ws| == i && forall j :: 0 <= j < i ==> ws[j] == WordAt(mem[..], first + j)
      {
        var _, w := ReadEeprom(first + i, 1);
        ws := ws + w;
      }
    }

    /** The buffer of e1000_set_eeprom: `junk` is what the allocator left in it. */
    method Buffer(offset: nat, bytes: seq<U8>, junk: seq<U8>) returns (buff: seq<U8>)
      requires Valid() && bytes != [] && offset + |bytes| <= mem.Length && |junk| == mem.Length
      ensures var first, last := offset / 2, (offset + |bytes| - 1) / 2;
              |buff| == 2 * (last - first + 1)
              && forall j :: 0 <= j < |buff| ==>
                   buff[j] == if offset <= 2 * first + j < offset + |bytes| then bytes[2 * first + j - offset] else mem[2 * first + j]
    {
      hide Low, High, Word;
      var first, last := offset / 2, (offset + |bytes| - 1) / 2;
      var n := 2 * (last - first + 1);
      buff := junk[..n];
      var ptr := 0;
      if offset % 2 == 1 {
        var _, w := ReadEeprom(first, 1);
        Halves(mem[..], first);
        buff := buff[0 := Low(w[0])][1 := High(w[0])];
        ptr := 1;
      }
      if (offset + |bytes|) % 2 == 1 {
        var _, w := ReadEeprom(last, 1);
        Halves(mem[..], last);
        buff := buff[n - 2 := Low(w[0])][n - 1 := High(w[0])];
      }
      Merged(mem[..], first, buff, ptr, bytes);
      buff := buff[..ptr] + bytes + buff[ptr + |bytes|..];
    }

    /** e1000_set_eeprom; `magic` tells whether the caller knew the device. */
    method SetEeprom(offset: nat, bytes: seq<U8>, magic: bool, junk: seq<U8>) returns (ok: bool)
      requires Valid() && offset + |bytes| <= mem.Length && |junk| == mem.Length
      modifies `addr, `log, mem
      ensures ok == (bytes != [] && magic)
      ensures mem[..] == if ok then AfterSet(old(mem[..]), offset, bytes) else old(mem[..])
      ensures ok && offset / 2 <= CHECKSUM_REG ==> ChecksumOk(mem[..])
    {
      hide ChecksumOk, Summed, Patched;
      if bytes == [] || !magic {
        return false;
      }
      Patch(offset, bytes, junk);
      if offset / 2 <= CHECKSUM_REG {
        UpdateChecksum();
      }
      return true;
    }

    /** Read, modify and write the words of the range. */
    method Patch(offset: nat, bytes: seq<U8>, junk: seq<U8>)
      requires Valid() && bytes != [] && offset + |bytes| <= mem.Length && |junk| == mem.Length
      modifies `addr, `log, mem
      ensures mem[..] == Patched(old(mem[..]), offset, bytes)
    {
      hide Written, Word, Low, High;
      var first, last := offset / 2, (offset + |bytes| - 1) / 2;
      var buff := Buffer(offset, bytes, junk);
      var ws := Pack(buff);
      ghost var was: seq<U8> := mem[..];
      var done := WriteEeprom(first, ws);
      PackedBytes(was, mem[..], first, buff);
      forall j | 0 <= j < mem.Length
        ensures mem[j] == Patched(was, offset, bytes)[j]
      {
        assert mem[..][j] == if 2 * first <= j < 2 * first + |buff| then buff[j - 2 * first] else was[j];
      }
    }

    /** Writing and reading back gives the bytes written, exactly when they do not contradict the checksum; where the checksum was
        rewritten it is valid. */
    method SetThenGet(offset: nat, bytes: seq<U8>, junk: seq<U8>) returns (back: seq<U8>, valid: bool)
      requires Valid() && bytes != [] && offset + |bytes| <= mem.Length && |junk| == mem.Length
      modifies `addr, `log, mem
      ensures mem[..] == AfterSet(old(mem[..]), offset, bytes) && back == mem[offset..offset + |bytes|]
      ensures valid == ChecksumOk(mem[..])
      ensures back == bytes <==> Survives(old(mem[..]), offset, bytes)
      ensures offset / 2 <= CHECKSUM_REG ==> valid
    {
      hide ChecksumOk, AfterSet, Survives;
      ghost var was: seq<U8> := mem[..];
      var _ := SetEeprom(offset, bytes, true, junk);
      AfterSetBytes(was, offset, bytes);
      var r := GetEeprom(offset, |bytes|);
      back := r.value;
      valid := ValidateChecksum();
    }
  }

  /** The bytes of a row of words in memory, on a little-endian host. */
  function Unpack(ws: seq<U16>): (b: seq<U8>)
    ensures |b| == 2 * |ws| && forall j {:trigger b[j]} :: 0 <= j < |b| ==> b[j] == ByteOf(ws, j)
  {
    seq(2 * |ws|, j requires 0 <= j < 2 * |ws| => ByteOf(ws, j))
  }

  /** The words of a row of bytes in memory. */
  function Pack(b: seq<U8>): (ws: seq<U16>)
    requires |b| % 2 == 0
    ensures 2 * |ws| == |b| && forall i {:trigger ws[i]} :: 0 <= i < |ws| ==> ws[i] == WordAt(b, i)
  {
    seq(|b| / 2, i requires 0 <= i < |b| / 2 => WordAt(b, i))
  }

  /** Splitting a word of memory gives its two bytes. */
  lemma Halves(mem: seq<U8>, w: nat)
    requires 2 * w + 1 < |mem|
    ensures Low(WordAt(mem, w)) == mem[2 * w] && High(WordAt(mem, w)) == mem[2 * w + 1]
  {
  }

  lemma UnpackedWords(mem: seq<U8>, first: nat, ws: seq<U16>)
    requires 2 * (first + |ws|) <= |mem| && forall i :: 0 <= i < |ws| ==> ws[i] == WordAt(mem, first + i)
    ensures Unpack(ws) == mem[2 * first..2 * (first + |ws|)]
  {
    hide Low, High, Word;
    forall j | 0 <= j < 2 * |ws|
      ensures Unpack(ws)[j] == mem[2 * first + j]
    {
      Halves(mem, first + j / 2);
    }
  }

  lemma Slice(mem: seq<U8>, at: nat, b: seq<U8>, skip: nat, len: nat)
    requires at + |b| <= |mem| && b == mem[at..at + |b|] && skip + len <= |b|
    ensures b[skip..skip + len] == mem[at + skip..at + skip + len]
  {
    var x, y := b[skip..skip + len], mem[at + skip..at + skip + len];
    assert |x| == |y| == len;
    forall i | 0 <= i < len
      ensures x[i] == y[i]
    {
      assert x[i] == b[skip + i] && y[i] == mem[at + skip + i];
      assert mem[at..at + |b|][skip + i] == mem[at + (skip + i)];
    }
  }

  /** Copying `bytes` over a buffer whose edges hold what the memory holds. */
  lemma Merged(mem: seq<U8>, first: nat, buff: seq<U8>, ptr: nat, bytes: seq<U8>)
    requires ptr <= 1 && ptr + |bytes| <= |buff| <= ptr + |bytes| + 1 && 2 * first + |buff| <= |mem|
    requires ptr == 1 ==> buff[0] == mem[2 * first]
    requires |buff| > ptr + |bytes| ==> buff[|buff| - 1] == mem[2 * first + |buff| - 1]
    ensures var b, offset := buff[..ptr] + bytes + buff[ptr + |bytes|..], 2 * first + ptr;
            |b| == |buff| && forall j :: 0 <= j < |b| ==>
              b[j] == if offset <= 2 * first + j < offset + |bytes| then bytes[2 * first + j - offset] else mem[2 * first + j]
  {
  }

  lemma PackedBytes(mem: seq<U8>, mem': seq<U8>, first: nat, b: seq<U8>)
    requires |b| % 2 == 0 && Written(mem, mem', first, Pack(b))
    ensures forall j {:trigger mem'[j]} :: 0 <= j < |mem| ==> mem'[j] == if 2 * first <= j < 2 * first + |b| then b[j - 2 * first] else mem[j]
  {
    hide Low, High, Word;
    forall j {:trigger mem'[j]} | 0 <= j < |mem|
      ensures mem'[j] == if 2 * first <= j < 2 * first + |b| then b[j - 2 * first] else mem[j]
    {
      if 2 * first <= j < 2 * first + |b| {
        Halves(b, (j - 2 * first) / 2);
      }
    }
  }
}
