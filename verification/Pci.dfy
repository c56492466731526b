/** The address of configuration mechanism 1. */
module ConfigAddress {
  function Address(bus: bv8, device: bv8, fn: bv8, offset: bv8): bv32 {
    ((bus as bv32) << 16) | ((device as bv32) << 11) | ((fn as bv32) << 8) | ((offset & 0xFC) as bv32) | 0x8000_0000
  }

  /** The fields of the address, as PCI Local Bus 3.0 section 3.2.2.3.2 lays them out. */
  lemma Decodes(bus: bv8, device: bv8, fn: bv8, o: bv8)
    requires device < 32 && fn < 8
    ensures var a := Address(bus, device, fn, o);
      && ((a >> 16) & 0xFF) as bv8 == bus
      && ((a >> 11) & 0x1F) as bv8 == device
      && ((a >> 8) & 0x7) as bv8 == fn
      && (a & 0xFF) as bv8 == o & 0xFC
  {
  }

  /** Two functions never share a register: the address determines bus, device, function and dword. */
  lemma AddressInjective(bus: bv8, device: bv8, fn: bv8, o: bv8, bus': bv8, device': bv8, fn': bv8, o': bv8)
    requires device < 32 && fn < 8 && device' < 32 && fn' < 8
    requires Address(bus, device, fn, o) == Address(bus', device', fn', o')
    ensures bus == bus' && device == device' && fn == fn' && o & 0xFC == o' & 0xFC
  {
    Decodes(bus, device, fn, o);
    Decodes(bus', device', fn', o');
    hide Address;
  }
}

/** The PCI enumerator: a recursive scan of buses, devices and functions through configuration
    mechanism 1, recording what it meets in a vector of 128 entries. The configuration space is a
    constant function from the address written to the address port to the dword then read. */
module Pci {
  import opened ConfigAddress

  type Space = bv32 -> bv32

  const CAPACITY: nat := 128

  /** `pci_dev_t`. */
  datatype Dev = Dev(bus: bv8, device: bv8, fn: bv8)

  // Configuration reads.

  function Register(s: Space, x: Dev, offset: bv8): bv32 { s(Address(x.bus, x.device, x.fn, offset)) }

  function VendorId(s: Space, x: Dev): bv32 { Register(s, x, 0x00) & 0x0000_FFFF }
  function HeaderType(s: Space, x: Dev): bv32 { (Register(s, x, 0x0C) & 0x00FF_0000) >> 16 }
  function ClassCode(s: Space, x: Dev): bv32 { (Register(s, x, 0x08) & 0xFF00_0000) >> 24 }
  function SubClassCode(s: Space, x: Dev): bv32 { (Register(s, x, 0x08) & 0x00FF_0000) >> 16 }
  function SecondaryBus(s: Space, x: Dev): bv8 { ((Register(s, x, 0x18) & 0x0000_FF00) >> 8) as bv8 }

  predicate Present(s: Space, x: Dev) { VendorId(s, x) != 0xFFFF }
  predicate MultiFunction(s: Space, x: Dev) { HeaderType(s, x) & 0x80 != 0 }
  predicate IsBridge(s: Space, x: Dev) { ClassCode(s, x) == 0x06 && SubClassCode(s, x) == 0x04 }

  // What a scan can see. Function 0 gates a device, bit 7 of its header type gates functions 1 to 7.

  predicate Visible(s: Space, x: Dev) {
    && x.device < 32 && x.fn < 8
    && Present(s, Dev(x.bus, x.device, 0))
    && (x.fn != 0 ==> MultiFunction(s, Dev(x.bus, x.device, 0)) && Present(s, x))
  }

  /** The visible functions below `n` of a device. */
  function Functions(s: Space, bus: bv8, device: bv8, n: bv8): seq<Dev>
    requires n <= 8
    decreases n
  {
    if n == 0 then []
    else
      var x := Dev(bus, device, n - 1);
      Functions(s, bus, device, n - 1) + (if Visible(s, x) then [x] else [])
  }

  /** The visible functions of the devices below `n` of a bus. */
  function Devices(s: Space, bus: bv8, n: bv8): seq<Dev>
    requires n <= 32
    decreases n
  {
    if n == 0 then [] else Devices(s, bus, n - 1) + Functions(s, bus, n - 1, 8)
  }

  /** The bridges below a bus nest at most `depth` deep: on this the recursion of the scan terminates. */
  ghost predicate Bounded(s: Space, bus: bv8, depth: nat)
    decreases depth
  {
    forall x :: Visible(s, x) && x.bus == bus && IsBridge(s, x) ==> depth > 0 && Bounded(s, SecondaryBus(s, x), depth - 1)
  }

  // The traversal: a bridge comes after everything behind it.

  function BusList(s: Space, bus: bv8, depth: nat): seq<Dev>
    decreases depth, 1, 0
  {
    Flat(s, Devices(s, bus, 32), depth)
  }

  function Flat(s: Space, xs: seq<Dev>, depth: nat): seq<Dev>
    decreases depth, 0, |xs|
  {
    if xs == [] then [] else Flat(s, xs[..|xs| - 1], depth) + Behind(s, xs[|xs| - 1], depth) + [xs[|xs| - 1]]
  }

  function Behind(s: Space, x: Dev, depth: nat): seq<Dev>
    decreases depth, 0, 0
  {
    if IsBridge(s, x) && depth > 0 then BusList(s, SecondaryBus(s, x), depth - 1) else []
  }

  lemma BehindIs(s: Space, x: Dev, depth: nat)
    ensures Behind(s, x, depth)
         == if IsBridge(s, x) && depth > 0 then BusList(s, SecondaryBus(s, x), depth - 1) else []
  {
  }

  // The buses that the scan starts from.

  /** How many of the functions below `n` of device 0 on bus 0 come before the first absent one. */
  function Hosts(s: Space, n: bv8): bv8
    requires n <= 8
    ensures Hosts(s, n) <= n
    decreases n
  {
    if n == 0 then 0
    else if Hosts(s, n - 1) == n - 1 && Present(s, Dev(0, 0, n - 1)) then n
    else Hosts(s, n - 1)
  }

  function Roots(s: Space): (n: bv8)
    ensures n <= 8
  {
    if !MultiFunction(s, Dev(0, 0, 0)) then (if Present(s, Dev(0, 0, 0)) then 1 else 0) else Hosts(s, 8)
  }

  /** The traversal from the first `n` root buses. */
  function RootList(s: Space, n: bv8, depth: nat): seq<Dev>
    decreases n
  {
    if n == 0 then [] else RootList(s, n - 1, depth) + BusList(s, n - 1, depth)
  }

  function ScanList(s: Space, depth: nat): seq<Dev> { RootList(s, Roots(s), depth) }

  ghost predicate Scannable(s: Space, depth: nat) { forall b: bv8 :: b < Roots(s) ==> Bounded(s, b, depth) }

  // The scan.

  function Capped(xs: seq<Dev>): (r: seq<Dev>)
    ensures |r| == if |xs| < 128 then |xs| else 128
  {
    if |xs| <= CAPACITY then xs else xs[..CAPACITY]
  }

  lemma CappedStart(xs: seq<Dev>)
    requires |xs| <= CAPACITY
    ensures Capped(xs) == xs && Capped(xs + []) == xs
  {
    assert xs + [] == xs;
  }

  lemma CappedAppend(xs: seq<Dev>, ys: seq<Dev>)
    ensures Capped(Capped(xs) + ys) == Capped(xs + ys)
  {
  }

  lemma FlatNil(s: Space, depth: nat)
    ensures Flat(s, [], depth) == []
  {
  }

  lemma FlatStep(s: Space, xs: seq<Dev>, x: Dev, depth: nat)
    ensures Flat(s, xs + [x], depth) == Flat(s, xs, depth) + Behind(s, x, depth) + [x]
  {
    assert (xs + [x])[..|xs|] == xs;
  }

  lemma {:induction false} FlatAppend(s: Space, xs: seq<Dev>, ys: seq<Dev>, depth: nat)
    ensures Flat(s, xs + ys, depth) == Flat(s, xs, depth) + Flat(s, ys, depth)
    decreases |ys|
  {
    hide Behind, Flat;
    if ys == [] {
      assert xs + ys == xs;
      FlatNil(s, depth);
    } else {
      var zs, y := ys[..|ys| - 1], ys[|ys| - 1];
      FlatAppend(s, xs, zs, depth);
      assert xs + ys == (xs + zs) + [y];
      FlatStep(s, xs + zs, y, depth);
      assert ys == zs + [y];
      FlatStep(s, zs, y, depth);
    }
  }

  lemma {:induction false} NoFunctions(s: Space, bus: bv8, device: bv8, n: bv8)
    requires n <= 8 && !Present(s, Dev(bus, device, 0))
    ensures Functions(s, bus, device, n) == []
    decreases n
  {
    if n != 0 {
      NoFunctions(s, bus, device, n - 1);
    }
  }

  lemma {:induction false} OneFunction(s: Space, bus: bv8, device: bv8, n: bv8)
    requires 1 <= n <= 8 && device < 32 && Present(s, Dev(bus, device, 0)) && !MultiFunction(s, Dev(bus, device, 0))
    ensures Functions(s, bus, device, n) == [Dev(bus, device, 0)]
    decreases n
  {
    if n != 1 {
      OneFunction(s, bus, device, n - 1);
    } else {
      assert Functions(s, bus, device, 0) == [];
    }
  }

  lemma FirstFunction(s: Space, bus: bv8, device: bv8, depth: nat)
    requires device < 32 && Present(s, Dev(bus, device, 0))
    ensures Flat(s, Functions(s, bus, device, 1), depth)
         == Behind(s, Dev(bus, device, 0), depth) + [Dev(bus, device, 0)]
  {
    hide Flat, Behind, Present;
    assert Functions(s, bus, device, 0) == [];
    FlatNil(s, depth);
    FlatStep(s, [], Dev(bus, device, 0), depth);
    assert [] + [Dev(bus, device, 0)] == [Dev(bus, device, 0)];
  }

  lemma NextFunction(s: Space, bus: bv8, device: bv8, fn: bv8, depth: nat)
    requires 1 <= fn < 8 && device < 32
    requires Present(s, Dev(bus, device, 0)) && MultiFunction(s, Dev(bus, device, 0))
    ensures var x, sofar := Dev(bus, device, fn), Flat(s, Functions(s, bus, device, fn), depth);
      Flat(s, Functions(s, bus, device, fn + 1), depth)
      == if Present(s, x) then sofar + (Behind(s, x, depth) + [x]) else sofar
  {
    hide Flat, Behind, Present, MultiFunction;
    FlatStep(s, Functions(s, bus, device, fn), Dev(bus, device, fn), depth);
    assert Functions(s, bus, device, fn) + [] == Functions(s, bus, device, fn);
  }

  /** The hosts counted below `i` stay counted. */
  lemma {:induction false} HostsStop(s: Space, i: bv8, n: bv8)
    requires i <= n <= 8 && Hosts(s, i) == i
    ensures i <= Hosts(s, n)
    ensures i < n && !Present(s, Dev(0, 0, i)) ==> Hosts(s, n) == i
    decreases n
  {
    if i != n {
      HostsStop(s, i, n - 1);
    }
  }

  class Enumerator {
    const space: Space
    const entries: array<Dev>
    var count: nat

    ghost predicate Valid()
      reads this
    {
      entries.Length == CAPACITY && count <= CAPACITY
    }

    ghost function Recorded(): seq<Dev>
      requires Valid()
      reads this, entries
    {
      entries[..count]
    }

    constructor (space: Space)
      ensures Valid() && fresh(entries) && Recorded() == [] && this.space == space
    {
      this.space := space;
      entries := new Dev[CAPACITY](_ => Dev(0, 0, 0));
      count := 0;
    }

    /** `pci_vector_dev_add`. */
    method Add(x: Dev) returns (ok: bool)
      requires Valid()
      modifies this, entries
      ensures Valid() && ok == (old(count) < 128)
      ensures Recorded() == Capped(old(Recorded()) + [x])
    {
      if count >= CAPACITY {
        return false;
      }
      entries[count] := x;
      count := count + 1;
      return true;
    }

    /** `pci_vector_dev_get`: an index past the end gives the last entry. */
    method Get(index: nat) returns (x: Dev)
      requires Valid()
      ensures x == if count == 0 then Dev(0, 0, 0) else Recorded()[if index < count then index else count - 1]
    {
      if count == 0 {
        return Dev(0, 0, 0);
      }
      if index > count - 1 {
        return entries[count - 1];
      }
      return entries[index];
    }

    /** `pci_function_scan`. */
    method FunctionScan(x: Dev, ghost depth: nat)
      requires Valid()
      requires IsBridge(space, x) ==> depth > 0 && Bounded(space, SecondaryBus(space, x), depth - 1)
      modifies this, entries
      ensures Valid() && Recorded() == Capped(old(Recorded()) + (Behind(space, x, depth) + [x]))
      decreases depth, 0
    {
      hide Behind, BusList, Capped, IsBridge, SecondaryBus;
      ghost var was, behind := Recorded(), Behind(space, x, depth);
      CappedStart(was);
      BehindIs(space, x, depth);
      if IsBridge(space, x) {
        BusScan(SecondaryBus(space, x), depth - 1);
      }
      assert Recorded() == Capped(was + behind);
      CappedAppend(was + behind, [x]);
      assert was + behind + [x] == was + (behind + [x]);
      var _ := Add(x);
    }

    /** `pci_device_scan`. */
    method DeviceScan(bus: bv8, device: bv8, ghost depth: nat)
      requires Valid() && Bounded(space, bus, depth) && device < 32
      modifies this, entries
      ensures Valid() && Recorded() == Capped(old(Recorded()) + Flat(space, Functions(space, bus, device, 8), depth))
      decreases depth, 1
    {
      hide Flat, Behind, Present, MultiFunction, Functions, Capped;
      ghost var was := Recorded();
      CappedStart(was);
      var zero := Dev(bus, device, 0);
      if !Present(space, zero) {
        NoFunctions(space, bus, device, 8);
        FlatNil(space, depth);
        return;
      }
      FunctionScan(zero, depth);
      FirstFunction(space, bus, device, depth);
      if MultiFunction(space, zero) {
        var fn: bv8 := 1;
        while fn < 8
          invariant 1 <= fn <= 8 && Valid()
          invariant Recorded() == Capped(was + Flat(space, Functions(space, bus, device, fn), depth))
        {
          NextFunction(space, bus, device, fn, depth);
          var x := Dev(bus, device, fn);
          if Present(space, x) {
            FunctionScan(x, depth);
            ghost var sofar, more := Flat(space, Functions(space, bus, device, fn), depth), Behind(space, x, depth) + [x];
            CappedAppend(was + sofar, more);
            assert was + sofar + more == was + (sofar + more);
          }
          fn := fn + 1;
        }
      } else {
        OneFunction(space, bus, device, 1);
        OneFunction(space, bus, device, 8);
      }
    }

    /** `pci_bus_scan`. */
    method BusScan(bus: bv8, ghost depth: nat)
      requires Valid() && Bounded(space, bus, depth)
      modifies this, entries
      ensures Valid() && Recorded() == Capped(old(Recorded()) + BusList(space, bus, depth))
      decreases depth, 2
    {
      hide Flat, Behind, Present, MultiFunction, Functions, Bounded, Capped;
      ghost var was := Recorded();
      FlatNil(space, depth);
      CappedStart(was);
      var i: bv8 := 0;
      while i < 32
        invariant i <= 32 && Valid()
        invariant Recorded() == Capped(was + Flat(space, Devices(space, bus, i), depth))
      {
        DeviceScan(bus, i, depth);
        FlatAppend(space, Devices(space, bus, i), Functions(space, bus, i, 8), depth);
        ghost var sofar := Flat(space, Devices(space, bus, i), depth);
        ghost var more := Flat(space, Functions(space, bus, i, 8), depth);
        CappedAppend(was + sofar, more);
        assert was + sofar + more == was + (sofar + more);
        i := i + 1;
      }
    }

    /** `pci_recursive_scan`. */
    method RecursiveScan(ghost depth: nat)
      requires Valid() && Scannable(space, depth)
      modifies this, entries
      ensures Valid() && Recorded() == Capped(ScanList(space, depth))
    {
      hide BusList, Present, MultiFunction, Bounded, Capped;
      count := 0;
      assert Recorded() == [];
      CappedStart([]);
      if !MultiFunction(space, Dev(0, 0, 0)) {
        if !Present(space, Dev(0, 0, 0)) {
          return;
        }
        BusScan(0, depth);
        assert RootList(space, 0, depth) == [];
      } else {
        var i: bv8 := 0;
        while i < 8
          invariant i <= 8 && Valid() && Hosts(space, i) == i
          invariant Recorded() == Capped(RootList(space, i, depth))
        {
          if !Present(space, Dev(0, 0, i)) {
            break;
          }
          HostsStop(space, i + 1, 8);
          BusScan(i, depth);
          CappedAppend(RootList(space, i, depth), BusList(space, i, depth));
          i := i + 1;
        }
        HostsStop(space, i, 8);
      }
    }
  }
}
