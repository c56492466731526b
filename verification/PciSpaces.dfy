/** What the enumerator reads, byte by byte of the configuration space, and two whole spaces with the vector
    that a scan of them leaves. */
module PciSpaces {
  import opened ConfigAddress
  import opened Pci

  // The fields, by their offsets in the configuration header (PCI Local Bus 3.0 section 6.1, PCI-to-PCI
  // Bridge Architecture 1.2 section 3.2).

  /** The dword at an offset, and one of its bytes: mechanism 1 takes the address as a sum. */
  function Dword(s: Space, x: Dev, offset: bv32): bv32 {
    s(0x8000_0000 + (x.bus as bv32) * 65536 + (x.device as bv32) * 2048 + (x.fn as bv32) * 256 + offset)
  }

  function ConfigByte(s: Space, x: Dev, k: bv32): bv32
  {
    var d := Dword(s, x, k - k % 4);
    (if k % 4 == 0 then d else if k % 4 == 1 then d / 0x100 else if k % 4 == 2 then d / 0x1_0000 else d / 0x100_0000) % 256
  }

  lemma AddressIsSum(bus: bv8, device: bv8, fn: bv8, o: bv8)
    requires device < 32 && fn < 8 && o % 4 == 0
    ensures Address(bus, device, fn, o)
         == 0x8000_0000 + (bus as bv32) * 65536 + (device as bv32) * 2048 + (fn as bv32) * 256 + (o as bv32)
  {
  }

  lemma RegisterIsDword(s: Space, x: Dev, o: bv8)
    requires x.device < 32 && x.fn < 8 && o % 4 == 0
    ensures Register(s, x, o) == Dword(s, x, o as bv32)
  {
    AddressIsSum(x.bus, x.device, x.fn, o);
    hide Address;
  }

  lemma ByteOf(d: bv32)
    ensures d & 0xFFFF == d % 256 + d / 0x100 % 256 * 256
    ensures (d & 0x00FF_0000) >> 16 == d / 0x1_0000 % 256
    ensures (d & 0xFF00_0000) >> 24 == d / 0x100_0000 % 256
    ensures (d & 0x0000_FF00) >> 8 == d / 0x100 % 256
  {
  }

  /** The fields of a function. */
  lemma Fields(s: Space, x: Dev)
    requires x.device < 32 && x.fn < 8
    ensures VendorId(s, x) == ConfigByte(s, x, 0x00) + ConfigByte(s, x, 0x01) * 256
    ensures SubClassCode(s, x) == ConfigByte(s, x, 0x0A)
    ensures ClassCode(s, x) == ConfigByte(s, x, 0x0B)
    ensures HeaderType(s, x) == ConfigByte(s, x, 0x0E)
    ensures SecondaryBus(s, x) as bv32 == ConfigByte(s, x, 0x19)
  {
    RegisterIsDword(s, x, 0x00);
    RegisterIsDword(s, x, 0x08);
    RegisterIsDword(s, x, 0x0C);
    RegisterIsDword(s, x, 0x18);
    hide Dword, Register;
    ByteOf(Register(s, x, 0x00));
    ByteOf(Register(s, x, 0x08));
    ByteOf(Register(s, x, 0x0C));
    ByteOf(Register(s, x, 0x18));
  }

  /** What the scan decides by them. */
  lemma Kinds(s: Space, x: Dev)
    requires x.device < 32 && x.fn < 8
    ensures Present(s, x) <==> !(ConfigByte(s, x, 0x00) == 0xFF && ConfigByte(s, x, 0x01) == 0xFF)
    ensures MultiFunction(s, x) <==> ConfigByte(s, x, 0x0E) >= 128
    ensures IsBridge(s, x) <==> ConfigByte(s, x, 0x0B) == 6 && ConfigByte(s, x, 0x0A) == 4
  {
    Fields(s, x);
    hide VendorId, SubClassCode, ClassCode, HeaderType, Dword;
    TwoBytes(ConfigByte(s, x, 0x00), ConfigByte(s, x, 0x01));
    TopBit(ConfigByte(s, x, 0x0E));
  }

  lemma TwoBytes(a: bv32, b: bv32)
    requires a < 256 && b < 256
    ensures a + b * 256 == 0xFFFF <==> a == 0xFF && b == 0xFF
  {
  }

  lemma TopBit(a: bv32)
    requires a < 256
    ensures a & 0x80 != 0 <==> a >= 128
  {
  }

  /** The root buses: with a host of one function bus 0, if there is a host at all. With several, one bus for
      each function before the first absent one. */
  lemma RootsIff(s: Space, n: bv8)
    ensures Roots(s) == n <==>
      if ConfigByte(s, Dev(0, 0, 0), 0x0E) < 128
      then n == (if Present(s, Dev(0, 0, 0)) then 1 else 0)
      else n <= 8 && (forall i: bv8 :: i < n ==> Present(s, Dev(0, 0, i))) && (n < 8 ==> !Present(s, Dev(0, 0, n)))
  {
    Kinds(s, Dev(0, 0, 0));
    hide ConfigByte, Present, MultiFunction;
    HostsIs(s, 8);
    var m := Roots(s);
    if ConfigByte(s, Dev(0, 0, 0), 0x0E) >= 128 && n <= 8 {
      if n < m {
        assert Present(s, Dev(0, 0, n));
      } else if m < n {
        assert !Present(s, Dev(0, 0, m));
      }
    }
  }

  lemma {:induction false} HostsIs(s: Space, n: bv8)
    requires n <= 8
    ensures var m := Hosts(s, n);
      (forall i: bv8 :: i < m ==> Present(s, Dev(0, 0, i))) && (m < n ==> !Present(s, Dev(0, 0, m)))
    decreases n
  {
    hide Present;
    if n != 0 {
      HostsIs(s, n - 1);
    }
  }

  // Lists of devices.

  lemma {:induction false} NoDevices(s: Space, bus: bv8, m: bv8, n: bv8)
    requires m <= n <= 32 && forall i: bv8 :: m <= i < n ==> !Present(s, Dev(bus, i, 0))
    ensures Devices(s, bus, n) == Devices(s, bus, m)
    decreases n
  {
    hide Present, Functions;
    if n != m {
      NoDevices(s, bus, m, n - 1);
      NoFunctions(s, bus, n - 1, 8);
      assert Devices(s, bus, m) + [] == Devices(s, bus, m);
    }
  }

  lemma TwoFlat(s: Space, x: Dev, y: Dev, depth: nat)
    ensures Flat(s, [x], depth) == Behind(s, x, depth) + [x]
    ensures Flat(s, [x, y], depth) == Behind(s, x, depth) + [x] + Behind(s, y, depth) + [y]
  {
    hide Flat, Behind;
    FlatNil(s, depth);
    FlatStep(s, [], x, depth);
    FlatStep(s, [x], y, depth);
    assert [] + [x] == [x] && [x] + [y] == [x, y] && [] + Behind(s, x, depth) == Behind(s, x, depth);
  }

  // Two nested buses. On bus 0 a host and the bridge 0:1.0 to bus 1, whose buses end with bus 2; on bus 1
  // nothing but the bridge 1:1.0 to bus 2; on bus 2 one function.

  function Nested(a: bv32): bv32 {
    if a == 0x8000_0000 then 0x1237_8086
    else if a == 0x8000_0008 then 0x0600_0002
    else if a == 0x8000_000C then 0x0000_0000
    else if a == 0x8000_0800 then 0x0001_1B36
    else if a == 0x8000_0808 then 0x0604_0000
    else if a == 0x8000_080C then 0x0001_0000
    else if a == 0x8000_0818 then 0x0002_0100
    else if a == 0x8001_0800 then 0x0001_1B36
    else if a == 0x8001_0808 then 0x0604_0000
    else if a == 0x8001_080C then 0x0001_0000
    else if a == 0x8001_0818 then 0x0002_0201
    else if a == 0x8002_0000 then 0x100E_8086
    else if a == 0x8002_0008 then 0x0200_0003
    else if a == 0x8002_000C then 0x0000_0000
    else 0xFFFF_FFFF
  }

  lemma NestedPresent(bus: bv8, device: bv8)
    requires bus < 3 && device < 32
    ensures Present(Nested, Dev(bus, device, 0))
      <==> (bus == 0 && device < 2) || (bus == 1 && device == 1) || (bus == 2 && device == 0)
  {
  }

  lemma NestedKinds()
    ensures !MultiFunction(Nested, Dev(0, 0, 0)) && !IsBridge(Nested, Dev(0, 0, 0))
    ensures !MultiFunction(Nested, Dev(0, 1, 0)) && IsBridge(Nested, Dev(0, 1, 0)) && SecondaryBus(Nested, Dev(0, 1, 0)) == 1
    ensures !MultiFunction(Nested, Dev(1, 1, 0)) && IsBridge(Nested, Dev(1, 1, 0)) && SecondaryBus(Nested, Dev(1, 1, 0)) == 2
    ensures !MultiFunction(Nested, Dev(2, 0, 0)) && !IsBridge(Nested, Dev(2, 0, 0))
  {
  }

  lemma NestedDevices()
    ensures Devices(Nested, 0, 32) == [Dev(0, 0, 0), Dev(0, 1, 0)]
    ensures Devices(Nested, 1, 32) == [Dev(1, 1, 0)]
    ensures Devices(Nested, 2, 32) == [Dev(2, 0, 0)]
  {
    hide Present, MultiFunction, Functions;
    NestedKinds();
    forall bus: bv8, i: bv8 | bus < 3 && i < 32
      ensures Present(Nested, Dev(bus, i, 0))
        <==> (bus == 0 && i < 2) || (bus == 1 && i == 1) || (bus == 2 && i == 0)
    {
      NestedPresent(bus, i);
    }
    OneFunction(Nested, 0, 0, 8);
    OneFunction(Nested, 0, 1, 8);
    OneFunction(Nested, 1, 1, 8);
    OneFunction(Nested, 2, 0, 8);
    NoFunctions(Nested, 1, 0, 8);
    NoDevices(Nested, 0, 2, 32);
    NoDevices(Nested, 1, 2, 32);
    NoDevices(Nested, 2, 1, 32);
    assert Devices(Nested, 0, 1) == [] + [Dev(0, 0, 0)];
    assert Devices(Nested, 1, 1) == [] + [];
    assert Devices(Nested, 2, 1) == [] + [Dev(2, 0, 0)];
  }

  /** Every visible function of these buses is function 0 of a device that is there. */
  lemma NestedVisible(x: Dev)
    requires Visible(Nested, x) && x.bus < 3
    ensures x in {Dev(0, 0, 0), Dev(0, 1, 0), Dev(1, 1, 0), Dev(2, 0, 0)}
  {
    hide Present, MultiFunction;
    NestedPresent(x.bus, x.device);
    NestedKinds();
  }

  lemma NestedBounded()
    ensures Bounded(Nested, 0, 2)
  {
    hide Visible, IsBridge, SecondaryBus;
    NestedKinds();
    forall x | Visible(Nested, x) && x.bus < 3
      ensures x in {Dev(0, 0, 0), Dev(0, 1, 0), Dev(1, 1, 0), Dev(2, 0, 0)}
    {
      NestedVisible(x);
    }
    assert Bounded(Nested, 2, 0);
    assert Bounded(Nested, 1, 1);
  }

  /** The scan records the function on bus 2, then the bridge that leads there, then the bridge to bus 1. */
  lemma NestedScan()
    ensures Scannable(Nested, 2)
    ensures Capped(ScanList(Nested, 2)) == [Dev(0, 0, 0), Dev(2, 0, 0), Dev(1, 1, 0), Dev(0, 1, 0)]
  {
    hide Present, MultiFunction, IsBridge, SecondaryBus, Bounded, Flat, Devices, Behind;
    NestedKinds();
    NestedPresent(0, 0);
    NestedBounded();
    NestedDevices();
    BehindIs(Nested, Dev(0, 0, 0), 2);
    BehindIs(Nested, Dev(0, 1, 0), 2);
    BehindIs(Nested, Dev(1, 1, 0), 1);
    BehindIs(Nested, Dev(2, 0, 0), 0);
    TwoFlat(Nested, Dev(2, 0, 0), Dev(2, 0, 0), 0);
    TwoFlat(Nested, Dev(1, 1, 0), Dev(1, 1, 0), 1);
    TwoFlat(Nested, Dev(0, 0, 0), Dev(0, 1, 0), 2);
    assert BusList(Nested, 2, 0) == [Dev(2, 0, 0)];
    assert BusList(Nested, 1, 1) == [Dev(2, 0, 0), Dev(1, 1, 0)];
    assert BusList(Nested, 0, 2) == [Dev(0, 0, 0), Dev(2, 0, 0), Dev(1, 1, 0), Dev(0, 1, 0)];
    assert RootList(Nested, 0, 2) == [];
  }

  method ScanNested() returns (e: Enumerator)
    ensures e.Valid() && e.Recorded() == [Dev(0, 0, 0), Dev(2, 0, 0), Dev(1, 1, 0), Dev(0, 1, 0)]
  {
    hide ScanList, Scannable, Capped;
    NestedScan();
    e := new Enumerator(Nested);
    e.RecursiveScan(2);
  }

  // A host with several functions: 0:0.0, 0:0.1 and 0:0.3 are there, so the first absent one is 0:0.2. Buses 0
  // and 1 are scanned and bus 3 is not.

  function Several(a: bv32): bv32 {
    if a == 0x8000_0000 then 0x1237_8086
    else if a == 0x8000_0008 then 0x0600_0002
    else if a == 0x8000_000C then 0x0080_0000
    else if a == 0x8000_0100 then 0x1238_8086
    else if a == 0x8000_0108 then 0x0600_0002
    else if a == 0x8000_0300 then 0x1239_8086
    else if a == 0x8000_0308 then 0x0600_0002
    else if a == 0x8001_1800 then 0x100E_8086
    else if a == 0x8001_1808 then 0x0200_0003
    else if a == 0x8001_180C then 0x0000_0000
    else if a == 0x8003_0000 then 0x100E_8086
    else if a == 0x8003_0008 then 0x0200_0003
    else if a == 0x8003_000C then 0x0000_0000
    else 0xFFFF_FFFF
  }

  lemma SeveralPresent(bus: bv8, device: bv8, fn: bv8)
    requires bus < 2 && device < 32 && fn < 8
    ensures Present(Several, Dev(bus, device, fn))
      <==> (bus == 0 && device == 0 && fn in {0, 1, 3}) || (bus == 1 && device == 3 && fn == 0)
  {
  }

  lemma SeveralKinds()
    ensures MultiFunction(Several, Dev(0, 0, 0)) && !MultiFunction(Several, Dev(1, 3, 0))
    ensures !IsBridge(Several, Dev(0, 0, 0)) && !IsBridge(Several, Dev(0, 0, 1)) && !IsBridge(Several, Dev(0, 0, 3))
    ensures !IsBridge(Several, Dev(1, 3, 0))
  {
  }

  lemma SeveralFunctions()
    ensures Functions(Several, 0, 0, 8) == [Dev(0, 0, 0), Dev(0, 0, 1), Dev(0, 0, 3)]
  {
    hide Present, MultiFunction;
    SeveralKinds();
    forall fn: bv8 | fn < 8
      ensures Present(Several, Dev(0, 0, fn)) <==> fn in {0, 1, 3}
    {
      SeveralPresent(0, 0, fn);
    }
    assert Functions(Several, 0, 0, 2) == [Dev(0, 0, 0), Dev(0, 0, 1)];
    assert Functions(Several, 0, 0, 4) == [Dev(0, 0, 0), Dev(0, 0, 1), Dev(0, 0, 3)];
    assert Functions(Several, 0, 0, 6) == [Dev(0, 0, 0), Dev(0, 0, 1), Dev(0, 0, 3)];
  }

  lemma SeveralDevices()
    ensures Devices(Several, 0, 32) == [Dev(0, 0, 0), Dev(0, 0, 1), Dev(0, 0, 3)]
    ensures Devices(Several, 1, 32) == [Dev(1, 3, 0)]
  {
    hide Present, MultiFunction, Functions;
    SeveralKinds();
    SeveralFunctions();
    forall bus: bv8, i: bv8 | bus < 2 && i < 32
      ensures Present(Several, Dev(bus, i, 0)) <==> (bus == 0 && i == 0) || (bus == 1 && i == 3)
    {
      SeveralPresent(bus, i, 0);
    }
    OneFunction(Several, 1, 3, 8);
    NoDevices(Several, 0, 1, 32);
    NoDevices(Several, 1, 0, 3);
    NoDevices(Several, 1, 4, 32);
    assert Devices(Several, 0, 1) == [] + [Dev(0, 0, 0), Dev(0, 0, 1), Dev(0, 0, 3)];
    assert Devices(Several, 1, 4) == [] + [Dev(1, 3, 0)];
  }

  lemma SeveralBounded(x: Dev)
    requires x.bus < 2 && Visible(Several, x)
    ensures !IsBridge(Several, x)
  {
    hide Present, MultiFunction, IsBridge;
    SeveralKinds();
    SeveralPresent(x.bus, x.device, x.fn);
    SeveralPresent(x.bus, x.device, 0);
  }

  lemma SeveralRoots()
    ensures Roots(Several) == 2
  {
    hide Present, MultiFunction, Roots, ConfigByte;
    Kinds(Several, Dev(0, 0, 0));
    SeveralKinds();
    SeveralPresent(0, 0, 0);
    SeveralPresent(0, 0, 1);
    SeveralPresent(0, 0, 2);
    RootsIff(Several, 2);
  }

  lemma SeveralScan()
    ensures Scannable(Several, 0)
    ensures Capped(ScanList(Several, 0)) == [Dev(0, 0, 0), Dev(0, 0, 1), Dev(0, 0, 3), Dev(1, 3, 0)]
  {
    hide Present, MultiFunction, IsBridge, SecondaryBus, Flat, Devices, Behind, Roots, Visible;
    SeveralKinds();
    SeveralRoots();
    SeveralDevices();
    forall x: Dev | x.bus < 2 && Visible(Several, x)
      ensures !IsBridge(Several, x)
    {
      SeveralBounded(x);
    }
    BehindIs(Several, Dev(0, 0, 0), 0);
    BehindIs(Several, Dev(0, 0, 1), 0);
    BehindIs(Several, Dev(0, 0, 3), 0);
    BehindIs(Several, Dev(1, 3, 0), 0);
    TwoFlat(Several, Dev(0, 0, 0), Dev(0, 0, 1), 0);
    TwoFlat(Several, Dev(1, 3, 0), Dev(1, 3, 0), 0);
    FlatStep(Several, [Dev(0, 0, 0), Dev(0, 0, 1)], Dev(0, 0, 3), 0);
    assert [Dev(0, 0, 0), Dev(0, 0, 1)] + [Dev(0, 0, 3)] == [Dev(0, 0, 0), Dev(0, 0, 1), Dev(0, 0, 3)];
    assert BusList(Several, 0, 0) == [Dev(0, 0, 0), Dev(0, 0, 1), Dev(0, 0, 3)];
    assert BusList(Several, 1, 0) == [Dev(1, 3, 0)];
    assert RootList(Several, 0, 0) == [] && RootList(Several, 1, 0) == BusList(Several, 0, 0);
  }

  method ScanSeveral() returns (e: Enumerator)
    ensures e.Valid() && e.Recorded() == [Dev(0, 0, 0), Dev(0, 0, 1), Dev(0, 0, 3), Dev(1, 3, 0)]
  {
    hide ScanList, Scannable, Capped;
    SeveralScan();
    e := new Enumerator(Several);
    e.RecursiveScan(0);
  }
}
