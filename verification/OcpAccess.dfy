/** Typed access and the PHY window of the RTL8153 driver (demo/drivers/usb/class_r8152.c)
    on top of OcpWindow: words and bytes of a flat memory. */
module OcpAccess {
  import opened OcpWindow

  /** The little-endian word stored at address a. */
  function BusWord(mem: seq<nat>, a: nat): nat
    requires |mem| == 2 * SPACE && a + 1 < SPACE
  {
    Bus(mem, a) + 256 * Bus(mem, a + 1)
  }

  lemma DwordWords(b: seq<nat>)
    requires |b| == 4 && b[0] < 256 && b[1] < 256 && b[2] < 256 && b[3] < 256
    ensures Dword(b) % 65536 == b[0] + 256 * b[1]
    ensures Dword(b) / 65536 % 65536 == b[2] + 256 * b[3]
  {
    var low, high := b[0] + 256 * b[1], b[2] + 256 * b[3];
    assert Dword(b) == low + 65536 * high;
  }

  lemma DwordBytes(b: seq<nat>)
    requires |b| == 4 && b[0] < 256 && b[1] < 256 && b[2] < 256 && b[3] < 256
    ensures Dword(b) % 256 == b[0] && Dword(b) / 256 % 256 == b[1]
    ensures Dword(b) / 65536 % 256 == b[2] && Dword(b) / 16777216 % 256 == b[3]
  {
    var t3 := b[3];
    var t2 := b[2] + 256 * t3;
    var t1 := b[1] + 256 * t2;
    assert Dword(b) == b[0] + 256 * t1;
    assert Dword(b) / 256 == t1;
    assert Dword(b) / 65536 == t2 by { assert t1 / 256 == t2; assert Dword(b) == 65536 * t2 + (b[0] + 256 * b[1]); }
    assert Dword(b) / 16777216 == t3 by { assert Dword(b) == 16777216 * t3 + (b[0] + 256 * b[1] + 65536 * b[2]); }
  }

  lemma WordBytes(v: nat)
    requires v < 65536
    ensures Bytes(v)[0] == v % 256 && Bytes(v)[1] == v / 256
    ensures Bytes(v * 65536)[2] == v % 256 && Bytes(v * 65536)[3] == v / 256
  {
    assert v * 65536 / 65536 == v;
    assert v * 65536 == 16777216 * (v / 256) + 65536 * (v % 256);
  }

  lemma ByteBytes(v: nat, k: nat)
    requires v < 256 && k < 4
    ensures Bytes(v * Pow256(k))[k] == v
  {
  }

  /** A dword write with only some of its bytes enabled is a write of those bytes. */
  lemma OnlyThose(mem: seq<nat>, mem': seq<nat>, bank: nat, base: nat, en: seq<bool>, data: seq<nat>, k: nat, n: nat)
    requires |data| == 4 == |en| && k + n <= 4 && Wrote(mem, mem', bank, base, en, data)
    requires forall j :: 0 <= j < 4 ==> en[j] == (k <= j < k + n)
    ensures Wrote(mem, mem', bank, base + k, All(n), data[k..k + n])
  {
    forall x: nat | Enabled(base + k, All(n), x) ensures Enabled(base, en, x)
    {
    }
    forall x: nat | Enabled(base, en, x) ensures Enabled(base + k, All(n), x)
    {
    }
  }

  /** The word an index lies in, as a position in its dword. */
  lemma WordOf(index: nat)
    requires index < SPACE
    ensures var k := index / 2 % 2 * 2;
            && (k == 0 || k == 2) && index - index % 2 == index - index % 4 + k
            && index - index % 4 + 3 < SPACE
            && (k == 0 <==> index % 4 < 2) && (index - index % 4) % 4 == 0
  {
    var q := index / 4;
    assert index == 4 * q + index % 4;
    assert index / 2 == 2 * q + index % 4 / 2;
  }

  lemma ShiftedWord(b: seq<nat>, k: nat)
    requires |b| == 4 && b[0] < 256 && b[1] < 256 && b[2] < 256 && b[3] < 256
    requires k == 0 || k == 2
    ensures Dword(b) / Pow256(k) % 65536 == b[k] + 256 * b[k + 1]
  {
    DwordWords(b);
  }

  lemma ShiftedByte(b: seq<nat>, k: nat)
    requires |b| == 4 && b[0] < 256 && b[1] < 256 && b[2] < 256 && b[3] < 256 && k < 4
    ensures Dword(b) / Pow256(k) % 256 == b[k]
  {
    DwordBytes(b);
  }

  /** What ocp_write_word() hands to the block write: the shifted value carries the word at
      the bytes it enables. */
  lemma WordAt(d: nat, k: nat)
    requires d < 65536 && (k == 0 || k == 2)
    ensures Bytes(d * Pow256(k))[k..k + 2] == [d % 256, d / 256]
    ensures var byteen := if k == 2 then 0xCC else 0x33;
            forall j :: 0 <= j < 4 ==> Nibble(byteen % 16)[j] == (k <= j < k + 2)
  {
    WordBytes(d);
    assert Nibble(3) == [true, true, false, false] && Nibble(12) == [false, false, true, true];
  }

  lemma LowHalf(data: nat)
    ensures data % 65536 % 256 == data % 256 && data % 65536 / 256 == data / 256 % 256
  {
    assert data / 256 == 256 * (data / 65536) + data % 65536 / 256;
  }

  /** Exactly the two bytes of the word the index lies in were written. */
  ghost predicate WordStored(mem: seq<nat>, mem': seq<nat>, bank: nat, index: nat, data: nat) {
    Wrote(mem, mem', bank, index - index % 2, All(2), [data % 256, data / 256 % 256])
  }

  /** A word written anywhere but over the bank register reads back, and no byte outside the
      word changed. */
  lemma WordReadsBack(mem: seq<nat>, mem': seq<nat>, index: nat, data: nat)
    requires Memory(mem) && index + 1 < SPACE && WordStored(mem, mem', BankReg(mem), index, data)
    requires index != GPHY_BASE && index != GPHY_BASE + 1
    ensures BusWord(mem', index - index % 2) == data % 65536
    ensures forall x: nat :: x < SPACE && x / 2 != index / 2 ==> Bus(mem', x) == Bus(mem, x)
  {
    var a := index - index % 2;
    BlockReadsBack(mem, mem', a, All(2), [data % 256, data / 256 % 256]);
    LowHalf(data);
  }

  lemma WordWritten(mem: seq<nat>, mem': seq<nat>, bank: nat, base: nat, index: nat, data: nat, k: nat)
    requires (k == 0 || k == 2) && base + k == index - index % 2
    requires Wrote(mem, mem', bank, base, Nibble((if k == 2 then 0xCC else 0x33) % 16), Bytes(data % 65536 * Pow256(k)))
    ensures WordStored(mem, mem', bank, index, data)
  {
    var d := data % 65536;
    WordAt(d, k);
    LowHalf(data);
    OnlyThose(mem, mem', bank, base, Nibble((if k == 2 then 0xCC else 0x33) % 16), Bytes(d * Pow256(k)), k, 2);
  }

  lemma ByteAt(d: nat, k: nat)
    requires d < 256 && k < 4
    ensures Bytes(d * Pow256(k))[k..k + 1] == [d]
    ensures forall j :: 0 <= j < 4 ==> Nibble(ByteEnable(k) % 16)[j] == (k <= j < k + 1)
  {
    ByteBytes(d, k);
  }

  /** BYTE_EN_BYTE shifted to byte k of the dword. */
  function ByteEnable(k: nat): (byteen: nat)
    requires k < 4
    ensures byteen < 256
  {
    0x11 * if k == 0 then 1 else if k == 1 then 2 else if k == 2 then 4 else 8
  }

  class Rtl {
    const dev: Device
    var ocpBase: nat

    ghost predicate Valid()
      reads this, dev
    {
      dev.Valid()
    }

    /** The cache is the sentinel, or tells the bank the device has selected. */
    ghost predicate CacheOk()
      requires Valid()
      reads this, dev
    {
      ocpBase == SENTINEL || ocpBase == BankReg(dev.mem)
    }

    /** The PHY's registers as a flat memory. */
    ghost function Phy(): seq<nat>
      requires Valid()
      reads this, dev
    {
      dev.mem[SPACE..]
    }

    constructor (dev: Device)
      requires dev.Valid()
      ensures Valid() && CacheOk() && this.dev == dev
    {
      this.dev := dev;
      ocpBase := SENTINEL;
    }

    /** ocp_read_word(): an odd index reads the word it lies in. */
    method ReadWord(index: nat) returns (v: nat)
      requires Valid() && index < SPACE
      ensures v == BusWord(dev.mem, index - index % 2) && v < 65536
    {
      WordOf(index);
      var shift, base := index / 2 % 2 * 2, index - index % 4;
      var _, b := dev.GenericRead(base, 4);
      ShiftedWord(b, shift);
      v := Dword(b) / Pow256(shift) % 65536;
    }

    /** ocp_write_word(): an index that is 1 modulo 4 writes nothing; otherwise exactly the
        two bytes of the word the index lies in. */
    method WriteWord(index: nat, data: nat)
      requires Valid() && index < SPACE
      modifies dev
      ensures Valid()
      ensures index % 4 == 1 ==> dev.mem == old(dev.mem)
      ensures index % 4 != 1 ==> WordStored(old(dev.mem), dev.mem, BankReg(old(dev.mem)), index, data)
    {
      WordOf(index);
      var idx, byteen, shift, d := index, 0x33, index / 2 % 2 * 2, data % 65536;
      if shift == 2 {
        byteen := byteen * 4;
        idx := index - index % 4;
      }
      var bytes := Bytes(d * Pow256(shift));
      assert idx % 4 == 0 <==> index % 4 != 1;
      var done := dev.GenericWrite(idx, byteen, bytes);
      if done {
        WordWritten(old(dev.mem), dev.mem, BankReg(old(dev.mem)), idx, index, data, shift);
      }
    }

    /** ocp_read_byte() */
    method ReadByte(index: nat) returns (v: nat)
      requires Valid() && index < SPACE
      ensures v == Bus(dev.mem, index)
    {
      var shift, base := index % 4, index - index % 4;
      var _, b := dev.GenericRead(base, 4);
      ShiftedByte(b, shift);
      v := Dword(b) / Pow256(shift) % 256;
    }

    /** ocp_write_byte(): exactly that byte. */
    method WriteByte(index: nat, data: nat)
      requires Valid() && index < SPACE
      modifies dev
      ensures Valid()
      ensures Wrote(old(dev.mem), dev.mem, BankReg(old(dev.mem)), index, All(1), [data % 256])
    {
      var d, shift := data % 256, index % 4;
      ByteAt(d, shift);
      var bytes := Bytes(d * Pow256(shift));
      var _ := dev.GenericWrite(index - shift, ByteEnable(shift), bytes);
      OnlyThose(old(dev.mem), dev.mem, BankReg(old(dev.mem)), index - shift, Nibble(ByteEnable(shift) % 16), bytes,
                shift, 1);
    }

    /** The bank selection of ocp_reg_read() and ocp_reg_write(). `ok` tells whether the
        write of the bank register, if one is made, reached the device; the driver does
        not look at it. The cache stays right exactly when it did, or was not needed. */
    method SelectBank(addr: nat, ok: bool)
      requires Valid() && CacheOk() && addr < SPACE
      modifies this`ocpBase, dev
      ensures Valid() && ocpBase == addr - addr % WINDOW_SIZE
      ensures CacheOk() <==> ok || ocpBase == old(ocpBase) || ocpBase == BankReg(old(dev.mem))
      ensures CacheOk() ==> BankReg(dev.mem) == ocpBase
      ensures Phy() == old(Phy())
      ensures forall a: nat :: a < SPACE && a != GPHY_BASE && a != GPHY_BASE + 1 ==> dev.mem[a] == old(dev.mem[a])
    {
      var base := addr - addr % WINDOW_SIZE;
      if base != ocpBase {
        if ok {
          ghost var m, bank := dev.mem, BankReg(dev.mem);
          WriteWord(GPHY_BASE, base);
          BankWritten(m, dev.mem, bank, base);
        }
        ocpBase := base;
      }
    }

    /** ocp_reg_read(): whatever bank was selected before, the word at the PHY address. */
    method OcpRegRead(addr: nat) returns (v: nat)
      requires Valid() && CacheOk() && addr < SPACE
      modifies this`ocpBase, dev
      ensures Valid() && CacheOk() && Phy() == old(Phy())
      ensures var a := addr - addr % 2; v == Phy()[a] + 256 * Phy()[a + 1]
    {
      SelectBank(addr, true);
      var index := addr % WINDOW_SIZE + WINDOW;
      WindowReaches(addr);
      v := ReadWord(index);
    }

    /** ocp_reg_write(): the two bytes at the PHY address and no other PHY register, unless
        the address is 1 modulo 4, when nothing is written. */
    method OcpRegWrite(addr: nat, data: nat)
      requires Valid() && CacheOk() && addr < SPACE
      modifies this`ocpBase, dev
      ensures Valid() && CacheOk()
      ensures addr % 4 == 1 ==> Phy() == old(Phy())
      ensures addr % 4 != 1 ==>
                var a := addr - addr % 2; Phy() == old(Phy())[a := data % 256][a + 1 := data / 256 % 256]
    {
      SelectBank(addr, true);
      var index := addr % WINDOW_SIZE + WINDOW;
      WindowReaches(addr);
      ghost var m := dev.mem;
      WriteWord(index, data);
      if addr % 4 != 1 {
        var a := addr - addr % 2;
        PhyWritten(m, dev.mem, ocpBase, a, index - index % 2, [data % 256, data / 256 % 256]);
      }
    }
  }

  /** The window shows the PHY address, for both bytes of its word. */
  lemma WindowReaches(addr: nat)
    requires addr < SPACE
    ensures var a, i := addr - addr % 2, addr % WINDOW_SIZE + WINDOW;
            && i % 4 == addr % 4 && i % 2 == addr % 2
            && Cell(addr - addr % WINDOW_SIZE, i - i % 2) == SPACE + a
            && Cell(addr - addr % WINDOW_SIZE, i - i % 2 + 1) == SPACE + a + 1
  {
    var a, i, bank := addr - addr % 2, addr % WINDOW_SIZE + WINDOW, addr - addr % WINDOW_SIZE;
    assert addr % WINDOW_SIZE % 4 == addr % 4;
    assert bank + (i - i % 2 - WINDOW) == a;
  }

  lemma BankWritten(mem: seq<nat>, mem': seq<nat>, bank: nat, base: nat)
    requires Memory(mem) && base < SPACE && Wrote(mem, mem', bank, GPHY_BASE, All(2), [base % 256, base / 256 % 256])
    ensures BankReg(mem') == base
    ensures mem'[SPACE..] == mem[SPACE..]
    ensures forall a: nat :: a < SPACE && a != GPHY_BASE && a != GPHY_BASE + 1 ==> mem'[a] == mem[a]
  {
    assert Enabled(GPHY_BASE, All(2), GPHY_BASE) && Enabled(GPHY_BASE, All(2), GPHY_BASE + 1);
    forall c: nat | c < 2 * SPACE && c != GPHY_BASE && c != GPHY_BASE + 1 ensures mem'[c] == mem[c]
    {
      assert !Touched(bank, GPHY_BASE, All(2), c);
    }
  }

  lemma PhyWritten(mem: seq<nat>, mem': seq<nat>, bank: nat, a: nat, i: nat, d: seq<nat>)
    requires Memory(mem) && a + 1 < SPACE && i + 1 < SPACE && |d| == 2
    requires Wrote(mem, mem', bank, i, All(2), d)
    requires Cell(bank, i) == SPACE + a && Cell(bank, i + 1) == SPACE + a + 1
    ensures mem'[SPACE..] == mem[SPACE..][a := d[0]][a + 1 := d[1]]
    ensures BankReg(mem') == BankReg(mem)
  {
    assert Enabled(i, All(2), i) && Enabled(i, All(2), i + 1);
    forall c: nat | c < 2 * SPACE && c != SPACE + a && c != SPACE + a + 1 ensures mem'[c] == mem[c]
    {
      assert !Touched(bank, i, All(2), c);
    }
  }

  // ------------------------------------------------------------------
  // Whole sequences of PHY accesses
  // ------------------------------------------------------------------

  datatype Access = Read(addr: nat) | Write(addr: nat, data: nat)

  /** The flat memory after a sequence of accesses. */
  function Flat(phy: seq<nat>, ops: seq<Access>): (r: seq<nat>)
    requires |phy| == SPACE && forall k :: 0 <= k < |ops| ==> ops[k].addr < SPACE
    ensures |r| == SPACE
  {
    if ops == [] then phy
    else
      var before := Flat(phy, ops[..|ops| - 1]);
      match ops[|ops| - 1]
      case Read(_) => before
      case Write(addr, data) =>
        if addr % 4 == 1 then before
        else before[addr - addr % 2 := data % 256][addr - addr % 2 + 1 := data / 256 % 256]
  }

  /** A read at step k returned the word the flat memory held at that step. */
  predicate Served(phy: seq<nat>, ops: seq<Access>, k: nat, v: nat)
    requires |phy| == SPACE && k < |ops| && forall k :: 0 <= k < |ops| ==> ops[k].addr < SPACE
  {
    ops[k].Read? ==>
      var a, flat := ops[k].addr - ops[k].addr % 2, Flat(phy, ops[..k]);
      v == flat[a] + 256 * flat[a + 1]
  }

  /** Any sequence of PHY accesses, in any order of banks, acts on a flat memory: every
      read returns the word that memory holds at that moment. */
  method Accesses(rtl: Rtl, ops: seq<Access>) returns (values: seq<nat>)
    requires rtl.Valid() && rtl.CacheOk() && forall k :: 0 <= k < |ops| ==> ops[k].addr < SPACE
    modifies rtl`ocpBase, rtl.dev
    ensures rtl.Valid() && rtl.CacheOk() && rtl.Phy() == Flat(old(rtl.Phy()), ops)
    ensures |values| == |ops| && forall k :: 0 <= k < |ops| ==> Served(old(rtl.Phy()), ops, k, values[k])
  {
    values := [];
    ghost var phy := rtl.Phy();
    assert ops[..0] == [];
    for i := 0 to |ops|
      invariant rtl.Valid() && rtl.CacheOk() && |values| == i
      invariant rtl.Phy() == Flat(phy, ops[..i])
      invariant forall k :: 0 <= k < i ==> Served(phy, ops, k, values[k])
    {
      var v := One(rtl, ops[i], phy, ops[..i]);
      values := values + [v];
      assert ops[..i + 1] == ops[..i] + [ops[i]];
    }
    assert ops[..|ops|] == ops;
  }

  /** One access after those in `done`. */
  method One(rtl: Rtl, op: Access, ghost phy: seq<nat>, ghost done: seq<Access>) returns (v: nat)
    requires rtl.Valid() && rtl.CacheOk() && op.addr < SPACE
    requires |phy| == SPACE && (forall k :: 0 <= k < |done| ==> done[k].addr < SPACE) && rtl.Phy() == Flat(phy, done)
    modifies rtl`ocpBase, rtl.dev
    ensures rtl.Valid() && rtl.CacheOk() && rtl.Phy() == Flat(phy, done + [op])
    ensures op.Read? ==>
              var a, flat := op.addr - op.addr % 2, Flat(phy, done);
              v == flat[a] + 256 * flat[a + 1]
  {
    v := 0;
    assert (done + [op])[..|done|] == done;
    match op {
      case Read(addr) => v := rtl.OcpRegRead(addr);
      case Write(addr, data) => rtl.OcpRegWrite(addr, data);
    }
  }
}
