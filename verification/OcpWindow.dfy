/** Register access of the RTL8153 driver (demo/drivers/usb/class_r8152.c): chunked block
    transfers, byte-enabled word and byte writes, and a 4 KB window onto the PHY's 64 KB
    space whose bank is selected by a register the driver caches. */
module OcpWindow {
  const SPACE: nat := 0x1_0000
  const WINDOW: nat := 0xB000
  const WINDOW_SIZE: nat := 0x1000
  const GPHY_BASE: nat := 0xE86C
  const SENTINEL: nat := 0xFFFF
  const CTL_BUF: nat := 64
  const WRITE_BURST: nat := 512

  // ------------------------------------------------------------------
  // The device: 64 KB of registers and, behind the window, 64 KB of PHY registers
  // ------------------------------------------------------------------

  ghost predicate Memory(mem: seq<nat>) {
    |mem| == 2 * SPACE && forall c :: 0 <= c < |mem| ==> mem[c] < 256
  }

  /** The value of the bank register. */
  function BankReg(mem: seq<nat>): nat
    requires |mem| == 2 * SPACE
  {
    mem[GPHY_BASE] + 256 * mem[GPHY_BASE + 1]
  }

  /** The storage cell behind a register address: PHY cells follow the plain ones. */
  function Cell(bank: nat, a: nat): (c: nat)
    requires a < SPACE
    ensures c < 2 * SPACE
  {
    if WINDOW <= a < WINDOW + WINDOW_SIZE then SPACE + (bank + (a - WINDOW)) % SPACE else a
  }

  /** The byte at a register address. */
  function Bus(mem: seq<nat>, a: nat): nat
    requires |mem| == 2 * SPACE && a < SPACE
  {
    mem[Cell(BankReg(mem), a)]
  }

  lemma CellsDiffer(bank: nat, a: nat, b: nat)
    requires a < b < SPACE
    ensures Cell(bank, a) != Cell(bank, b)
  {
    if WINDOW <= a && b < WINDOW + WINDOW_SIZE {
      var x, y := bank + (a - WINDOW), bank + (b - WINDOW);
      assert 0 < y - x < SPACE;
    }
  }

  /** Byte enables of a transfer at `a`, as a property of the address. */
  predicate Enabled(a: nat, en: seq<bool>, x: nat) {
    a <= x < a + |en| && en[x - a]
  }

  /** The cell is behind an enabled byte. */
  ghost predicate Touched(bank: nat, a: nat, en: seq<bool>, c: nat)
    requires a + |en| <= SPACE
  {
    exists x: nat :: Enabled(a, en, x) && Cell(bank, x) == c
  }

  /** From `mem` to `mem'` exactly the enabled bytes of one block were written. */
  ghost predicate Wrote(mem: seq<nat>, mem': seq<nat>, bank: nat, a: nat, en: seq<bool>, data: seq<nat>) {
    && |mem'| == |mem| == 2 * SPACE && |en| == |data| && a + |data| <= SPACE
    && (forall x: nat :: Enabled(a, en, x) ==> mem'[Cell(bank, x)] == data[x - a])
    && (forall c: nat :: c < |mem| && !Touched(bank, a, en, c) ==> mem'[c] == mem[c])
  }

  function Stored(mem: seq<nat>, bank: nat, a: nat, en: seq<bool>, data: seq<nat>): (r: seq<nat>)
    requires |en| == |data| && a + |data| <= SPACE && |mem| == 2 * SPACE
    ensures |r| == |mem|
    decreases |data|
  {
    if data == [] then mem
    else
      var n := |data| - 1;
      var before := Stored(mem, bank, a, en[..n], data[..n]);
      if en[n] then before[Cell(bank, a + n) := data[n]] else before
  }

  lemma {:induction false} StoredIsWrote(mem: seq<nat>, bank: nat, a: nat, en: seq<bool>, data: seq<nat>)
    requires |en| == |data| && a + |data| <= SPACE && |mem| == 2 * SPACE
    ensures Wrote(mem, Stored(mem, bank, a, en, data), bank, a, en, data)
    decreases |data|
  {
    if data != [] {
      var n := |data| - 1;
      var before, r := Stored(mem, bank, a, en[..n], data[..n]), Stored(mem, bank, a, en, data);
      StoredIsWrote(mem, bank, a, en[..n], data[..n]);
      forall x: nat | Enabled(a, en, x) ensures r[Cell(bank, x)] == data[x - a]
      {
        if x < a + n {
          assert Enabled(a, en[..n], x);
          CellsDiffer(bank, x, a + n);
        }
      }
      forall c: nat | c < |mem| && !Touched(bank, a, en, c) ensures r[c] == mem[c]
      {
        forall x: nat | Enabled(a, en[..n], x) ensures Enabled(a, en, x)
        {
        }
        if en[n] { assert Enabled(a, en, a + n); }
      }
    }
  }

  /** Two adjacent blocks written one after the other are one block. */
  lemma WroteConcat(m0: seq<nat>, m1: seq<nat>, m2: seq<nat>, bank: nat, a: nat, en1: seq<bool>, d1: seq<nat>,
                    en2: seq<bool>, d2: seq<nat>)
    requires Wrote(m0, m1, bank, a, en1, d1) && Wrote(m1, m2, bank, a + |d1|, en2, d2)
    ensures Wrote(m0, m2, bank, a, en1 + en2, d1 + d2)
  {
    var en, d, b := en1 + en2, d1 + d2, a + |d1|;
    forall x: nat | Enabled(a, en, x) ensures m2[Cell(bank, x)] == d[x - a]
    {
      if x < b {
        assert Enabled(a, en1, x);
        if Touched(bank, b, en2, Cell(bank, x)) {
          var y: nat :| Enabled(b, en2, y) && Cell(bank, y) == Cell(bank, x);
          CellsDiffer(bank, x, y);
          assert false;
        }
      } else {
        assert Enabled(b, en2, x);
      }
    }
    forall c: nat | c < |m0| && !Touched(bank, a, en, c) ensures m2[c] == m0[c]
    {
      if Touched(bank, a, en1, c) {
        var x: nat :| Enabled(a, en1, x) && Cell(bank, x) == c;
        assert Enabled(a, en, x);
        assert false;
      }
      if Touched(bank, b, en2, c) {
        var x: nat :| Enabled(b, en2, x) && Cell(bank, x) == c;
        assert Enabled(a, en, x);
        assert false;
      }
    }
  }

  /** A block that avoids the bank register leaves the window where it was. */
  lemma BankStays(mem: seq<nat>, mem': seq<nat>, bank: nat, a: nat, en: seq<bool>, data: seq<nat>)
    requires Wrote(mem, mem', bank, a, en, data)
    requires a + |data| <= GPHY_BASE || a >= GPHY_BASE + 2
    ensures BankReg(mem') == BankReg(mem)
  {
    assert !Touched(bank, a, en, GPHY_BASE);
    assert !Touched(bank, a, en, GPHY_BASE + 1);
  }

  /** Seen from the bus, a block that avoids the bank register changes its own enabled bytes
      and no other: every address reads what a flat memory would hold. */
  lemma BlockReadsBack(mem: seq<nat>, mem': seq<nat>, a: nat, en: seq<bool>, data: seq<nat>)
    requires |mem| == 2 * SPACE && Wrote(mem, mem', BankReg(mem), a, en, data)
    requires a + |data| <= GPHY_BASE || a >= GPHY_BASE + 2
    ensures forall x: nat :: x < SPACE ==>
              Bus(mem', x) == if Enabled(a, en, x) then data[x - a] else Bus(mem, x)
  {
    var bank := BankReg(mem);
    BankStays(mem, mem', bank, a, en, data);
    forall x: nat | x < SPACE && !Enabled(a, en, x) ensures Bus(mem', x) == Bus(mem, x)
    {
      forall y: nat | Enabled(a, en, y) ensures Cell(bank, y) != Cell(bank, x)
      {
        if x < y { CellsDiffer(bank, x, y); } else { CellsDiffer(bank, y, x); }
      }
    }
  }

  // ------------------------------------------------------------------
  // Byte enables and little-endian words
  // ------------------------------------------------------------------

  predicate Bit(n: nat, j: nat)
    requires j < 4
  {
    (if j == 0 then n else if j == 1 then n / 2 else if j == 2 then n / 4 else n / 8) % 2 == 1
  }

  /** The four byte enables of a nibble. */
  function Nibble(n: nat): (en: seq<bool>)
    ensures |en| == 4
  {
    [Bit(n, 0), Bit(n, 1), Bit(n, 2), Bit(n, 3)]
  }

  function All(n: nat): (en: seq<bool>)
    ensures |en| == n && forall i :: 0 <= i < n ==> en[i]
  {
    seq(n, _ => true)
  }

  /** Which bytes a block write of `size` bytes touches: the low nibble selects in the
      first dword, the high nibble in the last one, everything between is written. */
  function Mask(byteen: nat, size: nat): (en: seq<bool>)
    requires size >= 4 && size % 4 == 0
    ensures |en| == size
  {
    if size == 4 then Nibble(byteen % 16)
    else Nibble(byteen % 16) + All(size - 8) + Nibble(byteen / 16)
  }

  lemma HalfOf(q: nat, r: nat, k: nat)
    ensures (2 * k * q + r) / 2 == k * q + r / 2
  {
    assert 2 * k * q == 2 * (k * q);
  }

  lemma LowNibble(b: nat)
    ensures Nibble(b % 16) == [b % 2 == 1, b / 2 % 2 == 1, b / 4 % 2 == 1, b / 8 % 2 == 1]
  {
    var q, r := b / 16, b % 16;
    HalfOf(q, r, 8);
    HalfOf(q, r / 2, 4);
    HalfOf(q, r / 4, 2);
    assert b / 2 == 8 * q + r / 2;
    assert b / 4 == b / 2 / 2 == 4 * q + r / 4;
    assert b / 8 == b / 4 / 2 == 2 * q + r / 8;
    assert b / 2 % 2 == r / 2 % 2 && b / 4 % 2 == r / 4 % 2 && b / 8 % 2 == r / 8 % 2;
  }

  /** The bits of the mask: bits 0 to 3 are the first four bytes, bits 4 to 7 the last four of a
      longer block, and everything between is enabled. */
  lemma MaskBits(byteen: nat, size: nat)
    requires size >= 4 && size % 4 == 0
    ensures Mask(byteen, size)[..4] ==
            [byteen % 2 == 1, byteen / 2 % 2 == 1, byteen / 4 % 2 == 1, byteen / 8 % 2 == 1]
    ensures forall j :: 4 <= j < size - 4 ==> Mask(byteen, size)[j]
    ensures size > 4 ==>
              Mask(byteen, size)[size - 4..] ==
                [byteen / 16 % 2 == 1, byteen / 16 / 2 % 2 == 1, byteen / 16 / 4 % 2 == 1, byteen / 16 / 8 % 2 == 1]
  {
    LowNibble(byteen);
    var m, first, high := Mask(byteen, size), Nibble(byteen % 16), Nibble(byteen / 16);
    if size == 4 {
      assert m[..4] == first;
    } else {
      assert m == first + All(size - 8) + high;
      assert m[..4] == first && m[size - 4..] == high;
    }
  }

  /** What the byte enables of one transfer select: the low nibble for a single dword,
      everything in a longer transfer. */
  function Enables(be: nat, size: nat): (en: seq<bool>)
    ensures |en| == size
  {
    if size == 4 then Nibble(be % 16) else All(size)
  }

  function Bytes(d: nat): (b: seq<nat>)
    ensures |b| == 4
  {
    [d % 256, d / 256 % 256, d / 65536 % 256, d / 16777216 % 256]
  }

  function Dword(b: seq<nat>): nat
    requires |b| == 4
  {
    b[0] + 256 * b[1] + 65536 * b[2] + 16777216 * b[3]
  }

  /** 256^k for the shift counts of the driver. */
  function Pow256(k: nat): nat
    requires k < 4
  {
    if k == 0 then 1 else if k == 1 then 256 else if k == 2 then 65536 else 16777216
  }

  // ------------------------------------------------------------------
  // The driver, on a device whose transfers succeed
  // ------------------------------------------------------------------

  class Device {
    var mem: seq<nat>

    ghost predicate Valid()
      reads this
    {
      Memory(mem)
    }

    /** rtl_get_regs(): a control IN, refused by the driver above 64 bytes. */
    method GetRegs(index: nat, size: nat) returns (ok: bool, data: seq<nat>)
      requires Valid() && index + size <= SPACE
      ensures ok == (size <= 64)
      ensures ok ==> |data| == size && forall j :: 0 <= j < size ==> data[j] == Bus(mem, index + j)
    {
      ok, data := false, [];
      if size > CTL_BUF {
        return;
      }
      ok := true;
      var m := mem;
      data := seq<nat>(size, j requires 0 <= j < size && |m| == 2 * SPACE => Bus(m, index + j));
    }

    /** rtl_set_regs(): a control OUT with byte enables, refused above 64 bytes. A longer
        transfer than one dword is only made with all bytes enabled. */
    method SetRegs(index: nat, be: nat, data: seq<nat>) returns (ok: bool)
      requires Valid() && index + |data| <= SPACE && (forall j :: 0 <= j < |data| ==> data[j] < 256)
      requires |data| == 4 || be == 0xFF
      modifies this
      ensures Valid() && ok == (|data| <= 64)
      ensures !ok ==> mem == old(mem)
      ensures ok ==> mem == Stored(old(mem), BankReg(old(mem)), index, Enables(be, |data|), data)
      ensures ok ==> Wrote(old(mem), mem, BankReg(old(mem)), index, Enables(be, |data|), data)
    {
      if |data| > CTL_BUF {
        return false;
      }
      var en := Enables(be, |data|);
      StoredIsWrote(mem, BankReg(mem), index, en, data);
      StoredStaysMemory(mem, BankReg(mem), index, en, data);
      mem := Stored(mem, BankReg(mem), index, en, data);
      ok := true;
    }

    /** generic_ocp_read(): whole dwords, in bursts of at most 64 bytes. */
    method GenericRead(index: nat, size: nat) returns (ok: bool, data: seq<nat>)
      requires Valid() && (index % 4 != 0 || index + size <= SPACE)
      ensures ok == (size % 4 == 0 && size != 0 && index % 4 == 0)
      ensures ok ==> |data| == size && forall j :: 0 <= j < size ==> data[j] == Bus(mem, index + j)
    {
      ok, data := false, [];
      if size % 4 != 0 || size == 0 || index % 4 != 0 {
        return;
      }
      var idx, left := index, size;
      while left != 0
        invariant idx == index + |data| && |data| + left == size
        invariant forall j :: 0 <= j < |data| ==> data[j] == Bus(mem, index + j)
        decreases left
      {
        var tx := if left < 64 then left else 64;
        var got, piece := GetRegs(idx, tx);
        if !got {
          return;
        }
        data := data + piece;
        idx, left := idx + tx, left - tx;
      }
      ok := true;
    }

    /** One transfer with all bytes enabled. */
    method Burst(index: nat, data: seq<nat>) returns (ok: bool)
      requires Valid() && index + |data| <= SPACE && forall j :: 0 <= j < |data| ==> data[j] < 256
      modifies this
      ensures Valid() && ok == (|data| <= CTL_BUF)
      ensures !ok ==> mem == old(mem)
      ensures ok ==> mem == Stored(old(mem), BankReg(old(mem)), index, All(|data|), data)
    {
      assert Enables(0xFF, |data|) == All(|data|);
      ok := SetRegs(index, 0xFF, data);
    }

    /** The loop of generic_ocp_write() over the dwords between the first and the last, in
        bursts of 512 bytes that do not fit the 64-byte control buffer. */
    method WriteMiddle(index: nat, data: seq<nat>) returns (ok: bool)
      requires Valid() && index + |data| <= SPACE && forall j :: 0 <= j < |data| ==> data[j] < 256
      modifies this
      ensures Valid() && ok == (|data| <= CTL_BUF)
      ensures !ok ==> mem == old(mem)
      ensures ok ==> mem == Stored(old(mem), BankReg(old(mem)), index, All(|data|), data)
    {
      var idx, p, size := index, 0, |data|;
      while size != 0
        invariant Valid() && idx == index + p && p + size == |data|
        invariant size == |data| || (size == 0 && |data| <= CTL_BUF)
        invariant size == |data| ==> mem == old(mem)
        invariant size != |data| ==> mem == Stored(old(mem), BankReg(old(mem)), index, All(|data|), data)
        decreases size
      {
        var tx := if size < WRITE_BURST then size else WRITE_BURST;
        if tx == size { assert data[p..p + tx] == data; }
        var done := Burst(idx, data[p..p + tx]);
        if !done {
          return false;
        }
        idx, p, size := idx + tx, p + tx, size - tx;
      }
      ok := true;
    }

    /** What follows the first dword of a longer block. */
    method WriteRest(index: nat, end: nat, data: seq<nat>, ghost m0: seq<nat>, ghost first: seq<bool>)
      returns (ok: bool)
      requires Valid() && index + |data| <= SPACE && forall j :: 0 <= j < |data| ==> data[j] < 256
      requires |data| >= 8 && end < 16 && |first| == 4
      requires |m0| == 2 * SPACE && mem == Stored(m0, BankReg(m0), index, first, data[..4])
      modifies this
      ensures Valid() && ok == (|data| <= CTL_BUF + 8)
      ensures !ok ==> mem == old(mem)
      ensures ok && AvoidsBankReg(index, |data|) ==>
                Wrote(m0, mem, BankReg(m0), index, first + All(|data| - 8) + Nibble(end), data)
    {
      var middle, last := data[4..|data| - 4], data[|data| - 4..];
      ghost var m1 := mem;
      ok := WriteMiddle(index + 4, middle);
      if !ok {
        return;
      }
      ghost var m2 := mem;
      DoubledNibble(end);
      ok := SetRegs(index + |data| - 4, 16 * end + end, last);
      if AvoidsBankReg(index, |data|) {
        ThreeParts(m0, m1, m2, mem, index, first, All(|middle|), Nibble(end), data, middle, last);
      }
    }

    /** generic_ocp_write(): a block longer than 72 bytes fails after its first dword was
        written. */
    method GenericWrite(index: nat, byteen: nat, data: seq<nat>) returns (ok: bool)
      requires Valid() && (index % 4 != 0 || index + |data| <= SPACE) && byteen < 256
          && (forall j :: 0 <= j < |data| ==> data[j] < 256)
      modifies this
      ensures Valid()
      ensures ok == (|data| % 4 == 0 && |data| != 0 && index % 4 == 0 && |data| <= 72)
      ensures |data| % 4 != 0 || |data| == 0 || index % 4 != 0 ==> mem == old(mem)
      ensures ok && (|data| == 4 || AvoidsBankReg(index, |data|)) ==>
                Wrote(old(mem), mem, BankReg(old(mem)), index, Mask(byteen, |data|), data)
      ensures |data| % 4 == 0 && index % 4 == 0 && |data| > 72 ==>
                Wrote(old(mem), mem, BankReg(old(mem)), index, Nibble(byteen % 16), data[..4])
    {
      if |data| % 4 != 0 || |data| == 0 || index % 4 != 0 {
        return false;
      }
      var start := byteen % 16;
      DoubledNibble(start);
      ok := SetRegs(index, start + 16 * start, data[..4]);
      if |data| != 4 {
        ok := WriteRest(index, byteen / 16, data, old(mem), Nibble(start));
      } else {
        assert data[..4] == data;
      }
    }
  }

  predicate AvoidsBankReg(index: nat, size: nat) {
    index + size <= GPHY_BASE || index >= GPHY_BASE + 2
  }

  lemma DoubledNibble(n: nat)
    requires n < 16
    ensures (16 * n + n) % 16 == n
  {
  }

  lemma ThreeParts(m0: seq<nat>, m1: seq<nat>, m2: seq<nat>, m3: seq<nat>, a: nat,
                   e1: seq<bool>, e2: seq<bool>, e3: seq<bool>, data: seq<nat>, d2: seq<nat>, d3: seq<nat>)
    requires |data| >= 8 && d2 == data[4..|data| - 4] && d3 == data[|data| - 4..] && AvoidsBankReg(a, |data|)
    requires |e1| == |e3| == 4 && |e2| == |d2| && a + |data| <= SPACE && |m0| == |m1| == |m2| == 2 * SPACE
    requires m1 == Stored(m0, BankReg(m0), a, e1, data[..4])
    requires m2 == Stored(m1, BankReg(m1), a + 4, e2, d2)
    requires m3 == Stored(m2, BankReg(m2), a + |data| - 4, e3, d3)
    ensures Wrote(m0, m3, BankReg(m0), a, e1 + e2 + e3, data)
  {
    StoredIsWrote(m0, BankReg(m0), a, e1, data[..4]);
    StoredIsWrote(m1, BankReg(m1), a + 4, e2, d2);
    StoredIsWrote(m2, BankReg(m2), a + |data| - 4, e3, d3);
    ThreeBlocks(m0, m1, m2, m3, a, e1, e2, e3, data, d2, d3);
  }

  lemma ThreeBlocks(m0: seq<nat>, m1: seq<nat>, m2: seq<nat>, m3: seq<nat>, a: nat,
                    e1: seq<bool>, e2: seq<bool>, e3: seq<bool>, data: seq<nat>, d2: seq<nat>, d3: seq<nat>)
    requires |data| >= 8 && d2 == data[4..|data| - 4] && d3 == data[|data| - 4..] && AvoidsBankReg(a, |data|)
    requires |m0| == |m1| == |m2| == 2 * SPACE
    requires Wrote(m0, m1, BankReg(m0), a, e1, data[..4])
    requires Wrote(m1, m2, BankReg(m1), a + 4, e2, d2)
    requires Wrote(m2, m3, BankReg(m2), a + |data| - 4, e3, d3)
    ensures Wrote(m0, m3, BankReg(m0), a, e1 + e2 + e3, data)
  {
    var bank, d1 := BankReg(m0), data[..4];
    BankStays(m0, m1, bank, a, e1, d1);
    BankStays(m1, m2, bank, a + 4, e2, d2);
    WroteConcat(m0, m1, m2, bank, a, e1, d1, e2, d2);
    WroteConcat(m0, m2, m3, bank, a, e1 + e2, d1 + d2, e3, d3);
    assert d1 + d2 + d3 == data;
  }

  lemma {:induction false} StoredStaysMemory(mem: seq<nat>, bank: nat, a: nat, en: seq<bool>, data: seq<nat>)
    requires Memory(mem) && |en| == |data| && a + |data| <= SPACE && forall j :: 0 <= j < |data| ==> data[j] < 256
    ensures Memory(Stored(mem, bank, a, en, data))
    decreases |data|
  {
    if data != [] {
      StoredStaysMemory(mem, bank, a, en[..|data| - 1], data[..|data| - 1]);
    }
  }
}
