/** What the enumerator finds: when its recursion ends, which functions it lists, and when it lists
    each of them once. */
module PciTree {
  import opened Pci

  // Termination.

  /** Deeper bounds are bounds, and give the same traversal. */
  lemma {:induction false} DeeperList(s: Space, bus: bv8, d: nat, e: nat)
    requires Bounded(s, bus, d) && d <= e
    ensures Bounded(s, bus, e) && BusList(s, bus, e) == BusList(s, bus, d)
    decreases d, 1, 0
  {
    forall x | Visible(s, x) && x.bus == bus && IsBridge(s, x)
      ensures Bounded(s, SecondaryBus(s, x), e - 1)
    {
      DeeperList(s, SecondaryBus(s, x), d - 1, e - 1);
    }
    OnBus(s, bus, 32);
    DeeperFlat(s, bus, Devices(s, bus, 32), d, e);
  }

  lemma {:induction false} DeeperFlat(s: Space, bus: bv8, xs: seq<Dev>, d: nat, e: nat)
    requires Bounded(s, bus, d) && d <= e && forall x :: x in xs ==> Visible(s, x) && x.bus == bus
    ensures Flat(s, xs, e) == Flat(s, xs, d)
    decreases d, 0, |xs|
  {
    if xs != [] {
      var x := xs[|xs| - 1];
      assert x in xs;
      DeeperFlat(s, bus, xs[..|xs| - 1], d, e);
      if IsBridge(s, x) {
        DeeperList(s, SecondaryBus(s, x), d - 1, e - 1);
      }
    }
  }

  /** The functions listed are the visible ones of the bus. */
  lemma {:induction false} OnDevice(s: Space, bus: bv8, device: bv8, n: bv8, x: Dev)
    requires n <= 8 && device < 32
    ensures x in Functions(s, bus, device, n) <==> Visible(s, x) && x.bus == bus && x.device == device && x.fn < n
    decreases n
  {
    if n != 0 {
      OnDevice(s, bus, device, n - 1, x);
    }
  }

  lemma {:induction false} OnBusAt(s: Space, bus: bv8, n: bv8, x: Dev)
    requires n <= 32
    ensures x in Devices(s, bus, n) <==> Visible(s, x) && x.bus == bus && x.device < n
    decreases n
  {
    if n != 0 {
      OnBusAt(s, bus, n - 1, x);
      OnDevice(s, bus, n - 1, 8, x);
    }
  }

  lemma OnBus(s: Space, bus: bv8, n: bv8)
    requires n <= 32
    ensures forall x :: x in Devices(s, bus, n) <==> Visible(s, x) && x.bus == bus && x.device < n
  {
    forall x
      ensures x in Devices(s, bus, n) <==> Visible(s, x) && x.bus == bus && x.device < n
    {
      OnBusAt(s, bus, n, x);
    }
  }

  /** How far a bus number is from the last one. */
  function Above(bus: bv8): nat { 255 - bus as nat }

  /** Every bridge leads to a higher bus number. */
  ghost predicate Ascending(s: Space) {
    forall x :: Visible(s, x) && IsBridge(s, x) ==> x.bus < SecondaryBus(s, x)
  }

  /** Then the scan terminates, at most 256 buses deep. */
  lemma {:induction false} AscendingTerminates(s: Space, bus: bv8)
    requires Ascending(s)
    ensures Bounded(s, bus, Above(bus))
    decreases Above(bus)
  {
    forall x | Visible(s, x) && x.bus == bus && IsBridge(s, x)
      ensures Above(bus) > 0 && Bounded(s, SecondaryBus(s, x), Above(bus) - 1)
    {
      var c := SecondaryBus(s, x);
      assert bus as nat < c as nat;
      AscendingTerminates(s, c);
      DeeperList(s, c, Above(c), Above(bus) - 1);
    }
  }

  // Reachability.

  /** The bridges `p` lead from one bus to another, each one behind the last. */
  predicate Leads(s: Space, a: bv8, p: seq<Dev>, z: bv8)
    decreases |p|
  {
    if p == [] then a == z
    else p[0].bus == a && Visible(s, p[0]) && IsBridge(s, p[0]) && Leads(s, SecondaryBus(s, p[0]), p[1..], z)
  }


  lemma {:induction false} LeadsAppend(s: Space, a: bv8, p: seq<Dev>, m: bv8, q: seq<Dev>, z: bv8)
    requires Leads(s, a, p, m) && Leads(s, m, q, z)
    ensures Leads(s, a, p + q, z)
    decreases |p|
  {
    if p == [] {
      assert p + q == q;
    } else {
      LeadsAppend(s, SecondaryBus(s, p[0]), p[1..], m, q, z);
      assert (p + q)[1..] == p[1..] + q;
    }
  }

  lemma {:induction false} LeadsSplit(s: Space, a: bv8, p: seq<Dev>, z: bv8, i: nat)
    requires Leads(s, a, p, z) && i <= |p|
    ensures var m := if i < |p| then p[i].bus else z; Leads(s, a, p[..i], m) && Leads(s, m, p[i..], z)
    decreases |p|
  {
    if i > 0 {
      LeadsSplit(s, SecondaryBus(s, p[0]), p[1..], z, i - 1);
      assert p[..i][1..] == p[1..][..i - 1];
    }
  }

  /** The last bridge of a path. */
  lemma LeadsLast(s: Space, a: bv8, p: seq<Dev>, z: bv8)
    requires Leads(s, a, p, z) && p != []
    ensures var x := p[|p| - 1];
      Visible(s, x) && IsBridge(s, x) && SecondaryBus(s, x) == z && Leads(s, a, p[..|p| - 1], x.bus)
  {
    LeadsSplit(s, a, p, z, |p| - 1);
    assert p[|p| - 1..] == [p[|p| - 1]];
    assert p[|p| - 1..][1..] == [];
  }

  /** No path from the bus is longer than `d`. */
  ghost predicate Short(s: Space, bus: bv8, d: nat) {
    forall p: seq<Dev>, z: bv8 :: Leads(s, bus, p, z) ==> |p| <= d
  }

  lemma {:induction false} PathShort(s: Space, bus: bv8, p: seq<Dev>, z: bv8, d: nat)
    requires Bounded(s, bus, d) && Leads(s, bus, p, z)
    ensures |p| <= d
    decreases d
  {
    if p != [] {
      PathShort(s, SecondaryBus(s, p[0]), p[1..], z, d - 1);
    }
  }

  /** The bound of the recursion is exactly a bound of the paths. */
  lemma {:induction false} BoundedIff(s: Space, bus: bv8, d: nat)
    ensures Bounded(s, bus, d) <==> Short(s, bus, d)
    decreases d
  {
    if Bounded(s, bus, d) {
      forall p, z | Leads(s, bus, p, z)
        ensures |p| <= d
      {
        PathShort(s, bus, p, z, d);
      }
    }
    if Short(s, bus, d) {
      forall x | Visible(s, x) && x.bus == bus && IsBridge(s, x)
        ensures d > 0 && Bounded(s, SecondaryBus(s, x), d - 1)
      {
        ShortBehind(s, x, d);
        BoundedIff(s, SecondaryBus(s, x), d - 1);
      }
    }
  }

  lemma ShortBehind(s: Space, x: Dev, d: nat)
    requires Visible(s, x) && IsBridge(s, x) && Short(s, x.bus, d)
    ensures d > 0 && Short(s, SecondaryBus(s, x), d - 1)
  {
    var c := SecondaryBus(s, x);
    OneMore(s, x, [], c);
    forall p, z | Leads(s, c, p, z)
      ensures |p| <= d - 1
    {
      OneMore(s, x, p, z);
      assert |[x] + p| <= d;
    }
  }

  lemma OneMore(s: Space, x: Dev, p: seq<Dev>, z: bv8)
    requires Visible(s, x) && IsBridge(s, x) && Leads(s, SecondaryBus(s, x), p, z)
    ensures Leads(s, x.bus, [x] + p, z)
  {
    assert ([x] + p)[1..] == p;
  }

  function Times(q: seq<Dev>, n: nat): seq<Dev> {
    if n == 0 then [] else q + Times(q, n - 1)
  }

  lemma {:induction false} RoundAndRound(s: Space, c: bv8, q: seq<Dev>, n: nat)
    requires q != [] && Leads(s, c, q, c)
    ensures Leads(s, c, Times(q, n), c) && |Times(q, n)| >= n
  {
    if n > 0 {
      RoundAndRound(s, c, q, n - 1);
      LeadsAppend(s, c, q, c, Times(q, n - 1), c);
    }
  }

  /** A bridge chain from the bus runs into a cycle. */
  ghost predicate Cyclic(s: Space, bus: bv8) {
    exists c, p: seq<Dev>, q: seq<Dev> :: Leads(s, bus, p, c) && Leads(s, c, q, c) && q != []
  }

  lemma CycleUnbounded(s: Space, bus: bv8, d: nat)
    requires Cyclic(s, bus)
    ensures !Bounded(s, bus, d)
  {
    hide Leads, Bounded;
    var c, p: seq<Dev>, q: seq<Dev> :| Leads(s, bus, p, c) && Leads(s, c, q, c) && q != [];
    var round := Times(q, d + 1);
    RoundAndRound(s, c, q, d + 1);
    LeadsAppend(s, bus, p, c, round, c);
    if Bounded(s, bus, d) {
      PathShort(s, bus, p + round, c, d);
    }
  }

  /** The scan of a bus terminates exactly when no chain of bridges below it comes back to a bus it
      has passed; then it is at most 256 buses deep. */
  lemma TerminatesIff(s: Space, bus: bv8)
    ensures (exists d: nat :: Bounded(s, bus, d)) <==> !Cyclic(s, bus)
    ensures !Cyclic(s, bus) ==> Bounded(s, bus, 256)
  {
    hide Leads, Bounded, Cyclic;
    if Cyclic(s, bus) {
      forall d: nat
        ensures !Bounded(s, bus, d)
      {
        CycleUnbounded(s, bus, d);
      }
    } else {
      forall p: seq<Dev>, z: bv8 | Leads(s, bus, p, z)
        ensures |p| <= 256
      {
        if |p| > 256 {
          LongPathCycles(s, bus, p, z);
        }
      }
      BoundedIff(s, bus, 256);
    }
  }

  /** The whole scan terminates exactly when no chain of bridges below a root bus runs into a cycle. */
  lemma ScanTerminatesIff(s: Space)
    ensures (exists d: nat :: Scannable(s, d)) <==> forall b: bv8 :: b < Roots(s) ==> !Cyclic(s, b)
  {
    hide Cyclic, Bounded, Roots;
    forall b: bv8
      ensures (exists d: nat :: Bounded(s, b, d)) <==> !Cyclic(s, b)
      ensures !Cyclic(s, b) ==> Bounded(s, b, 256)
    {
      TerminatesIff(s, b);
    }
    if d: nat :| Scannable(s, d) {
      forall b: bv8 | b < Roots(s)
        ensures !Cyclic(s, b)
      {
        assert Bounded(s, b, d);
      }
    }
    if forall b: bv8 :: b < Roots(s) ==> !Cyclic(s, b) {
      assert Scannable(s, 256);
    }
  }

  lemma LongPathCycles(s: Space, bus: bv8, p: seq<Dev>, z: bv8)
    requires Leads(s, bus, p, z) && |p| > 256
    ensures Cyclic(s, bus)
  {
    hide Leads;
    var i, j := RepeatedBus(p);
    LeadsSplit(s, bus, p, z, i);
    LeadsSplit(s, p[i].bus, p[i..], z, j - i);
    assert p[i..][j - i] == p[j];
    assert Leads(s, p[i].bus, p[i..][..j - i], p[i].bus);
  }

  /** A chain of more than 256 bridges passes some bus twice. */
  lemma RepeatedBus(p: seq<Dev>) returns (i: nat, j: nat)
    requires |p| > 256
    ensures i < j < |p| && p[i].bus == p[j].bus
  {
    if k: nat, l: nat :| k < l < |p| && p[k].bus == p[l].bus {
      return k, l;
    } else {
      Pigeons(seq(|p|, k requires 0 <= k < |p| => p[k].bus as nat), 256);
      assert false;
    }
  }

  /** Distinct numbers below `n` are at most `n` many. */
  lemma {:induction false} Pigeons(xs: seq<nat>, n: nat)
    requires forall k :: 0 <= k < |xs| ==> xs[k] < n
    requires forall k, l :: 0 <= k < l < |xs| ==> xs[k] != xs[l]
    ensures |xs| <= n
  {
    if xs != [] {
      assert xs[0] < n;
      if k: nat :| k < |xs| && xs[k] == n - 1 {
        var ys := xs[..k] + xs[k + 1..];
        forall i | 0 <= i < |ys|
          ensures ys[i] < n - 1
        {
          assert ys[i] == xs[if i < k then i else i + 1];
        }
        forall i, j | 0 <= i < j < |ys|
          ensures ys[i] != ys[j]
        {
          assert ys[i] == xs[if i < k then i else i + 1] && ys[j] == xs[if j < k then j else j + 1];
        }
        Pigeons(ys, n - 1);
      } else {
        assert forall i :: 0 <= i < |xs| ==> xs[i] != n - 1;
        Pigeons(xs, n - 1);
      }
    }
  }

  // What is listed.

  /** A function is behind a bus when a chain of bridges leads from the bus to the function's own. */
  ghost predicate Reaches(s: Space, bus: bv8, x: Dev) {
    Visible(s, x) && exists p :: Leads(s, bus, p, x.bus)
  }

  lemma {:induction false} InFlat(s: Space, xs: seq<Dev>, x: Dev, d: nat)
    ensures x in Flat(s, xs, d) <==> x in xs || exists y :: y in xs && x in Behind(s, y, d)
    decreases |xs|
  {
    hide Behind;
    if xs != [] {
      var init, last := xs[..|xs| - 1], xs[|xs| - 1];
      assert xs == init + [last];
      InFlat(s, init, x, d);
      if y :| y in init && x in Behind(s, y, d) {
        assert y in xs;
      }
      assert last in xs;
      assert x in Flat(s, xs, d) <==> x in Flat(s, init, d) || x in Behind(s, last, d) || x == last;
    }
  }

  /** The traversal of a bus lists exactly the functions behind it. */
  lemma {:induction false} InBusList(s: Space, bus: bv8, d: nat, x: Dev)
    requires Bounded(s, bus, d)
    ensures x in BusList(s, bus, d) <==> Reaches(s, bus, x)
    decreases d
  {
    hide Visible, Flat, Devices, IsBridge, SecondaryBus;
    OnBus(s, bus, 32);
    InFlat(s, Devices(s, bus, 32), x, d);
    DeviceBelow(s);
    if Reaches(s, bus, x) {
      var p :| Leads(s, bus, p, x.bus);
      if p != [] {
        InBusList(s, SecondaryBus(s, p[0]), d - 1, x);
        assert Leads(s, SecondaryBus(s, p[0]), p[1..], x.bus);
        assert x in Behind(s, p[0], d);
      }
    }
    if y :| y in Devices(s, bus, 32) && x in Behind(s, y, d) {
      InBusList(s, SecondaryBus(s, y), d - 1, x);
      var p :| Leads(s, SecondaryBus(s, y), p, x.bus);
      OneMore(s, y, p, x.bus);
    }
    if Visible(s, x) && x.bus == bus {
      assert Leads(s, bus, [], x.bus);
    }
  }

  lemma DeviceBelow(s: Space)
    ensures forall x :: Visible(s, x) ==> x.device < 32
  {
  }

  // Each function once.

  predicate NoDup(xs: seq<Dev>) { forall i, j :: 0 <= i < j < |xs| ==> xs[i] != xs[j] }

  lemma NoDupConcat(xs: seq<Dev>, ys: seq<Dev>)
    ensures NoDup(xs + ys) <==> NoDup(xs) && NoDup(ys) && forall x :: x in xs ==> x !in ys
  {
    var zs := xs + ys;
    if NoDup(zs) {
      assert forall i :: 0 <= i < |xs| ==> xs[i] == zs[i];
      assert forall i :: 0 <= i < |ys| ==> ys[i] == zs[|xs| + i];
    }
    if NoDup(xs) && NoDup(ys) && forall x :: x in xs ==> x !in ys {
      forall i, j | 0 <= i < j < |zs|
        ensures zs[i] != zs[j]
      {
        assert i < |xs| ==> zs[i] in xs;
        assert j >= |xs| ==> zs[j] in ys;
      }
    }
  }

  lemma {:induction false} DeviceNoDup(s: Space, bus: bv8, device: bv8, n: bv8)
    requires n <= 8 && device < 32
    ensures NoDup(Functions(s, bus, device, n))
    decreases n
  {
    if n != 0 {
      DeviceNoDup(s, bus, device, n - 1);
      OnDevice(s, bus, device, n - 1, Dev(bus, device, n - 1));
      NoDupConcat(Functions(s, bus, device, n - 1), [Dev(bus, device, n - 1)]);
      assert Functions(s, bus, device, n - 1) + [] == Functions(s, bus, device, n - 1);
    }
  }

  lemma {:induction false} BusNoDup(s: Space, bus: bv8, n: bv8)
    requires n <= 32
    ensures NoDup(Devices(s, bus, n))
    decreases n
  {
    if n != 0 {
      hide Functions, NoDup;
      BusNoDup(s, bus, n - 1);
      DeviceNoDup(s, bus, n - 1, 8);
      var front, last := Devices(s, bus, n - 1), Functions(s, bus, n - 1, 8);
      forall x | x in front
        ensures x !in last
      {
        OnBusAt(s, bus, n - 1, x);
        OnDevice(s, bus, n - 1, 8, x);
      }
      NoDupConcat(front, last);
    }
  }

  /** Only one chain of bridges leads from the bus to any function. */
  ghost predicate OnePath(s: Space, bus: bv8) {
    forall x, p, q :: Visible(s, x) && Leads(s, bus, p, x.bus) && Leads(s, bus, q, x.bus) ==> p == q
  }

  lemma OnePathBehind(s: Space, x: Dev)
    requires Visible(s, x) && IsBridge(s, x) && OnePath(s, x.bus)
    ensures OnePath(s, SecondaryBus(s, x))
  {
    hide Leads, Visible, IsBridge, SecondaryBus;
    var c := SecondaryBus(s, x);
    forall y, p, q | Visible(s, y) && Leads(s, c, p, y.bus) && Leads(s, c, q, y.bus)
      ensures p == q
    {
      OneMore(s, x, p, y.bus);
      OneMore(s, x, q, y.bus);
      assert p == ([x] + p)[1..] && q == ([x] + q)[1..];
    }
  }

  /** With one path only, what is behind two bridges of a bus is disjoint, and not on the bus. */
  lemma BehindApart(s: Space, x: Dev, y: Dev, z: Dev, d: nat)
    requires Visible(s, x) && Visible(s, y) && x.bus == y.bus
    requires OnePath(s, x.bus) && Bounded(s, x.bus, d) && z in Behind(s, x, d)
    ensures Visible(s, z) && z.bus != x.bus && (z in Behind(s, y, d) ==> x == y)
  {
    hide Leads, Visible, SecondaryBus, BusList;
    InBusList(s, SecondaryBus(s, x), d - 1, z);
    var p :| Leads(s, SecondaryBus(s, x), p, z.bus);
    OneMore(s, x, p, z.bus);
    assert Leads(s, x.bus, [], x.bus) by {
      NoStep(s, x.bus);
    }
    assert [x] + p != [];
    if z in Behind(s, y, d) {
      InBusList(s, SecondaryBus(s, y), d - 1, z);
      var q :| Leads(s, SecondaryBus(s, y), q, z.bus);
      OneMore(s, y, q, z.bus);
      assert ([x] + p)[0] == ([y] + q)[0];
    }
  }

  lemma NoStep(s: Space, a: bv8)
    ensures Leads(s, a, [], a)
  {
  }

  lemma {:induction false} FlatUnique(s: Space, bus: bv8, xs: seq<Dev>, d: nat)
    requires OnePath(s, bus) && Bounded(s, bus, d) && NoDup(xs)
    requires forall x :: x in xs ==> Visible(s, x) && x.bus == bus
    ensures NoDup(Flat(s, xs, d))
    decreases d, 0, |xs|
  {
    if xs != [] {
      hide OnePath, Visible, SecondaryBus, BusList, NoDup;
      var init, x := xs[..|xs| - 1], xs[|xs| - 1];
      assert xs == init + [x];
      NoDupConcat(init, [x]);
      FlatUnique(s, bus, init, d);
      var front, behind := Flat(s, init, d), Behind(s, x, d);
      assert NoDup(behind) by {
        NoDupNil();
        if IsBridge(s, x) {
          OnePathBehind(s, x);
          BusListUnique(s, SecondaryBus(s, x), d - 1);
        }
      }
      forall z | z in front
        ensures z !in behind && z != x
      {
        FlatApart(s, init, x, z, d);
      }
      if x in behind {
        BehindApart(s, x, x, x, d);
      }
      NoDupConcat(front, behind);
      NoDupNil();
      NoDupConcat(front + behind, [x]);
    }
  }

  lemma FlatApart(s: Space, xs: seq<Dev>, x: Dev, z: Dev, d: nat)
    requires OnePath(s, x.bus) && Bounded(s, x.bus, d) && Visible(s, x)
    requires x !in xs && forall y :: y in xs ==> Visible(s, y) && y.bus == x.bus
    requires z in Flat(s, xs, d)
    ensures z !in Behind(s, x, d) && z != x
  {
    hide OnePath, Visible, Bounded, Behind, Flat;
    InFlat(s, xs, z, d);
    if z in Behind(s, x, d) {
      BehindApart(s, x, x, z, d);
    }
    if y :| y in xs && z in Behind(s, y, d) {
      BehindApart(s, y, x, z, d);
    }
  }

  lemma NoDupNil()
    ensures NoDup([]) && forall x :: NoDup([x])
  {
  }

  lemma BusListUnique(s: Space, bus: bv8, d: nat)
    requires OnePath(s, bus) && Bounded(s, bus, d)
    ensures NoDup(BusList(s, bus, d))
    decreases d, 1, 0
  {
    OnBus(s, bus, 32);
    BusNoDup(s, bus, 32);
    FlatUnique(s, bus, Devices(s, bus, 32), d);
  }

  /** The list of a function of the bus splits around what is behind it. */
  lemma FlatAt(s: Space, xs: seq<Dev>, i: nat, d: nat)
    requires i < |xs|
    ensures Flat(s, xs, d) == Flat(s, xs[..i], d) + Behind(s, xs[i], d) + [xs[i]] + Flat(s, xs[i + 1..], d)
  {
    hide Flat, Behind;
    assert xs == xs[..i] + [xs[i]] + xs[i + 1..];
    FlatAppend(s, xs[..i] + [xs[i]], xs[i + 1..], d);
    FlatStep(s, xs[..i], xs[i], d);
  }

  /** Two paths to one function list it twice. */
  lemma {:induction false} TwoPathsTwice(s: Space, bus: bv8, x: Dev, p: seq<Dev>, q: seq<Dev>, d: nat)
    requires Bounded(s, bus, d) && Visible(s, x) && p != q
    requires Leads(s, bus, p, x.bus) && Leads(s, bus, q, x.bus)
    ensures !NoDup(BusList(s, bus, d))
    decreases d
  {
    hide Visible, IsBridge, SecondaryBus, Flat, Devices, NoDup, Bounded;
    if p == [] || q == [] {
      assert Cyclic(s, bus) by {
        NoStep(s, bus);
        assert Leads(s, bus, [], bus) && Leads(s, bus, if p == [] then q else p, bus);
      }
      CycleUnbounded(s, bus, d);
      assert false;
    } else {
      var xs := Devices(s, bus, 32);
      DeviceBelow(s);
      OnBus(s, bus, 32);
      var i :| 0 <= i < |xs| && xs[i] == p[0];
      var j :| 0 <= j < |xs| && xs[j] == q[0];
      if p[0] == q[0] {
        BoundedBehind(s, p[0], d);
        assert p == [p[0]] + p[1..] && q == [q[0]] + q[1..];
        TwoPathsTwice(s, SecondaryBus(s, p[0]), x, p[1..], q[1..], d - 1);
        FlatAt(s, xs, i, d);
        DupPart(Flat(s, xs[..i], d), Behind(s, xs[i], d), [xs[i]] + Flat(s, xs[i + 1..], d));
        Regroup(Flat(s, xs[..i], d), Behind(s, xs[i], d), [xs[i]], Flat(s, xs[i + 1..], d));
      } else if i < j {
        DivergeTwice(s, xs, i, j, x, p, q, d);
      } else {
        DivergeTwice(s, xs, j, i, x, q, p, d);
      }
    }
  }

  lemma BoundedBehind(s: Space, x: Dev, d: nat)
    requires Visible(s, x) && IsBridge(s, x) && Bounded(s, x.bus, d)
    ensures d > 0 && Bounded(s, SecondaryBus(s, x), d - 1)
    ensures Behind(s, x, d) == BusList(s, SecondaryBus(s, x), d - 1)
  {
  }

  lemma Regroup(a: seq<Dev>, b: seq<Dev>, c: seq<Dev>, e: seq<Dev>)
    ensures a + b + c + e == a + b + (c + e)
  {
  }

  lemma DupPart(a: seq<Dev>, b: seq<Dev>, c: seq<Dev>)
    requires !NoDup(b)
    ensures !NoDup(a + b + c)
  {
    hide NoDup;
    NoDupConcat(a, b);
    NoDupConcat(a + b, c);
  }

  lemma DivergeTwice(s: Space, xs: seq<Dev>, i: nat, j: nat, x: Dev, p: seq<Dev>, q: seq<Dev>, d: nat)
    requires i < j < |xs| && p != [] && q != [] && xs[i] == p[0] && xs[j] == q[0]
    requires Bounded(s, xs[i].bus, d) && Bounded(s, xs[j].bus, d) && Visible(s, x)
    requires Leads(s, xs[i].bus, p, x.bus) && Leads(s, xs[j].bus, q, x.bus)
    ensures !NoDup(Flat(s, xs, d))
  {
    hide Visible, IsBridge, SecondaryBus, Flat, BusList, Behind, NoDup, Bounded;
    BoundedBehind(s, p[0], d);
    BoundedBehind(s, q[0], d);
    InBusList(s, SecondaryBus(s, p[0]), d - 1, x);
    InBusList(s, SecondaryBus(s, q[0]), d - 1, x);
    assert x in Behind(s, xs[i], d) && x in Behind(s, xs[j], d);
    var front := Flat(s, xs[..j], d);
    InFlat(s, xs[..j], x, d);
    assert xs[i] == xs[..j][i];
    NoDupConcat(front, Behind(s, xs[j], d));
    FlatAt(s, xs, j, d);
    NoDupConcat(front + Behind(s, xs[j], d), [xs[j]]);
    NoDupConcat(front + Behind(s, xs[j], d) + [xs[j]], Flat(s, xs[j + 1..], d));
  }

  /** A bus is listed without repetition exactly when one path leads to each function behind it. */
  lemma BusListUniqueIff(s: Space, bus: bv8, d: nat)
    requires Bounded(s, bus, d)
    ensures NoDup(BusList(s, bus, d)) <==> OnePath(s, bus)
  {
    hide BusList, NoDup, Leads, Visible;
    if OnePath(s, bus) {
      BusListUnique(s, bus, d);
    } else {
      var x, p, q :| Visible(s, x) && Leads(s, bus, p, x.bus) && Leads(s, bus, q, x.bus) && p != q;
      TwoPathsTwice(s, bus, x, p, q, d);
    }
  }

  // The whole scan.

  /** A function that a chain of bridges connects to one of the root buses below `n`. */
  ghost predicate Reached(s: Space, n: bv8, x: Dev) {
    exists r: bv8 :: r < n && Reaches(s, r, x)
  }

  lemma Below(r: bv8, m: bv8, n: bv8)
    requires n != 0 && m == n - 1
    ensures r < n <==> r < m || r == m
  {
  }

  lemma ReachedStep(s: Space, m: bv8, n: bv8, x: Dev)
    requires n != 0 && m == n - 1
    ensures Reached(s, n, x) <==> Reached(s, m, x) || Reaches(s, m, x)
  {
    hide Reaches;
    if r: bv8 :| r < n && Reaches(s, r, x) {
      Below(r, m, n);
    }
    if r: bv8 :| r < m && Reaches(s, r, x) {
      Below(r, m, n);
    }
  }

  lemma {:induction false} InRootList(s: Space, n: bv8, d: nat, x: Dev)
    requires forall b: bv8 :: b < n ==> Bounded(s, b, d)
    ensures x in RootList(s, n, d) <==> Reached(s, n, x)
    decreases n
  {
    hide Reaches, BusList, Bounded, Reached;
    if n != 0 {
      InRootList(s, n - 1, d, x);
      InBusList(s, n - 1, d, x);
      ReachedStep(s, n - 1, n, x);
    } else {
      NoneReached(s, x);
    }
  }

  lemma NoneReached(s: Space, x: Dev)
    ensures !Reached(s, 0, x)
  {
  }

  /** The scan lists exactly the functions that bridges connect to a root bus. */
  lemma ScanFinds(s: Space, d: nat, x: Dev)
    requires Scannable(s, d)
    ensures x in ScanList(s, d) <==> Reached(s, Roots(s), x)
  {
    InRootList(s, Roots(s), d, x);
  }

  /** From the first `n` root buses, only one chain of bridges leads to any function. */
  ghost predicate OneWay(s: Space, n: bv8) {
    && (forall r: bv8 :: r < n ==> OnePath(s, r))
    && forall x, r: bv8, t: bv8 :: r < n && t < n && Reaches(s, r, x) && Reaches(s, t, x) ==> r == t
  }

  lemma {:induction false} RootListUniqueIff(s: Space, n: bv8, d: nat)
    requires forall b: bv8 :: b < n ==> Bounded(s, b, d)
    ensures NoDup(RootList(s, n, d)) <==> OneWay(s, n)
    decreases n
  {
    hide Reaches, BusList, Bounded, OnePath, NoDup, OneWay, Reached;
    if n != 0 {
      var m := n - 1;
      var front, last := RootList(s, m, d), BusList(s, m, d);
      RootListUniqueIff(s, m, d);
      BusListUniqueIff(s, m, d);
      NoDupConcat(front, last);
      forall x
        ensures x in front <==> Reached(s, m, x)
        ensures x in last <==> Reaches(s, m, x)
      {
        InRootList(s, m, d, x);
        InBusList(s, m, d, x);
      }
      OneWayStep(s, m, n);
    } else {
      NoDupNil();
      NoRoots(s);
    }
  }

  lemma NoRoots(s: Space)
    ensures OneWay(s, 0)
  {
  }

  lemma OneWayStep(s: Space, m: bv8, n: bv8)
    requires n != 0 && m == n - 1
    ensures OneWay(s, n) <==> OneWay(s, m) && OnePath(s, m) && forall x :: Reached(s, m, x) ==> !Reaches(s, m, x)
  {
    hide Reaches, OnePath;
    if OneWay(s, n) {
      OneWayDown(s, m, n);
    }
    if OneWay(s, m) && OnePath(s, m) && forall x :: Reached(s, m, x) ==> !Reaches(s, m, x) {
      forall r: bv8 | r < n
        ensures OnePath(s, r)
      {
        Below(r, m, n);
      }
      forall x, r: bv8, t: bv8 | r < n && t < n && Reaches(s, r, x) && Reaches(s, t, x)
        ensures r == t
      {
        Below(r, m, n);
        Below(t, m, n);
        assert r < m ==> Reached(s, m, x);
        assert t < m ==> Reached(s, m, x);
      }
    }
  }

  lemma OneWayDown(s: Space, m: bv8, n: bv8)
    requires n != 0 && m == n - 1 && OneWay(s, n)
    ensures OneWay(s, m) && OnePath(s, m) && forall x :: Reached(s, m, x) ==> !Reaches(s, m, x)
  {
    hide Reaches, OnePath;
    Below(m, m, n);
    forall r: bv8 | r < m
      ensures OnePath(s, r)
    {
      Below(r, m, n);
    }
    forall x | Reached(s, m, x)
      ensures !Reaches(s, m, x)
    {
      var r: bv8 :| r < m && Reaches(s, r, x);
      Below(r, m, n);
    }
    forall x, r: bv8, t: bv8 | r < m && t < m && Reaches(s, r, x) && Reaches(s, t, x)
      ensures r == t
    {
      Below(r, m, n);
      Below(t, m, n);
    }
  }

  /** No function is listed twice exactly when no two chains of bridges lead to the same function. */
  lemma ScanOnceIff(s: Space, d: nat)
    requires Scannable(s, d)
    ensures NoDup(ScanList(s, d)) <==> OneWay(s, Roots(s))
  {
    RootListUniqueIff(s, Roots(s), d);
  }

  /** Bridges have distinct secondary buses, none of which is a root bus. */
  ghost predicate TreeShaped(s: Space, n: bv8) {
    && (forall x, y :: Visible(s, x) && IsBridge(s, x) && Visible(s, y) && IsBridge(s, y) && x != y ==>
          SecondaryBus(s, x) != SecondaryBus(s, y))
    && forall x :: Visible(s, x) && IsBridge(s, x) ==> SecondaryBus(s, x) >= n
  }

  lemma {:induction false} TreePaths(s: Space, n: bv8, r: bv8, t: bv8, p: seq<Dev>, q: seq<Dev>, z: bv8)
    requires TreeShaped(s, n) && r < n && t < n && Leads(s, r, p, z) && Leads(s, t, q, z)
    ensures r == t && p == q
    decreases |p|
  {
    if p != [] {
      LeadsLast(s, r, p, z);
    }
    if q != [] {
      LeadsLast(s, t, q, z);
    }
    if p != [] && q != [] {
      var x := p[|p| - 1];
      TreePaths(s, n, r, t, p[..|p| - 1], q[..|q| - 1], x.bus);
      assert p == p[..|p| - 1] + [x] && q == q[..|q| - 1] + [x];
    }
  }

  lemma TreeOneWay(s: Space, n: bv8)
    requires TreeShaped(s, n)
    ensures OneWay(s, n)
  {
    hide Leads, Visible, TreeShaped;
    forall r: bv8 | r < n
      ensures OnePath(s, r)
    {
      forall x, p, q | Visible(s, x) && Leads(s, r, p, x.bus) && Leads(s, r, q, x.bus)
        ensures p == q
      {
        TreePaths(s, n, r, r, p, q, x.bus);
      }
    }
    forall x, r: bv8, t: bv8 | r < n && t < n && Reaches(s, r, x) && Reaches(s, t, x)
      ensures r == t
    {
      var p :| Leads(s, r, p, x.bus);
      var q :| Leads(s, t, q, x.bus);
      TreePaths(s, n, r, t, p, q, x.bus);
    }
  }

  /** In a tree of buses every function is listed once. */
  lemma TreeScannedOnce(s: Space, d: nat)
    requires Scannable(s, d) && TreeShaped(s, Roots(s))
    ensures NoDup(ScanList(s, d))
  {
    hide TreeShaped, OneWay, NoDup, Scannable;
    TreeOneWay(s, Roots(s));
    ScanOnceIff(s, d);
  }

  lemma {:induction false} NoDupSize(xs: seq<Dev>, R: set<Dev>)
    requires NoDup(xs) && forall x :: x in xs <==> x in R
    ensures |xs| == |R|
    decreases |xs|
  {
    if xs == [] {
      assert R == {};
    } else {
      var init, x := xs[..|xs| - 1], xs[|xs| - 1];
      assert xs == init + [x];
      assert x in R;
      NoDupConcat(init, [x]);
      NoDupSize(init, R - {x});
    }
  }

  /** With the vector's 128 entries: every connected function is recorded exactly when at most 128 are
      connected, provided that none is listed twice. */
  lemma AllRecordedIff(s: Space, d: nat, R: set<Dev>)
    requires Scannable(s, d) && OneWay(s, Roots(s))
    requires forall x :: x in R <==> Reached(s, Roots(s), x)
    ensures (forall x :: x in R ==> x in Capped(ScanList(s, d))) <==> |R| <= 128
  {
    hide OneWay, Reached, Scannable, ScanList, NoDup;
    var xs := ScanList(s, d);
    ScanOnceIff(s, d);
    forall x
      ensures x in xs <==> x in R
    {
      ScanFinds(s, d, x);
    }
    NoDupSize(xs, R);
    if |xs| > CAPACITY {
      var x := xs[CAPACITY];
      assert x in R;
      assert xs == xs[..CAPACITY] + xs[CAPACITY..] && x == xs[CAPACITY..][0];
      NoDupConcat(xs[..CAPACITY], xs[CAPACITY..]);
    }
  }

  // Order.

  /** Whatever is behind a listed bridge comes before it in the list. */
  ghost predicate PostOrder(s: Space, xs: seq<Dev>) {
    forall j, y :: 0 <= j < |xs| && IsBridge(s, xs[j]) && Reaches(s, SecondaryBus(s, xs[j]), y) ==> y in xs[..j]
  }

  lemma PostOrderConcat(s: Space, xs: seq<Dev>, ys: seq<Dev>)
    requires PostOrder(s, xs) && PostOrder(s, ys)
    ensures PostOrder(s, xs + ys)
  {
    hide IsBridge, SecondaryBus, Reaches;
    var zs := xs + ys;
    forall j, y | 0 <= j < |zs| && IsBridge(s, zs[j]) && Reaches(s, SecondaryBus(s, zs[j]), y)
      ensures y in zs[..j]
    {
      if j < |xs| {
        assert zs[..j] == xs[..j];
        assert IsBridge(s, xs[j]);
      } else {
        assert zs[..j] == xs + ys[..j - |xs|];
        assert IsBridge(s, ys[j - |xs|]);
      }
    }
  }

  lemma {:induction false} FlatPostOrder(s: Space, bus: bv8, xs: seq<Dev>, d: nat)
    requires Bounded(s, bus, d) && forall x :: x in xs ==> Visible(s, x) && x.bus == bus
    ensures PostOrder(s, Flat(s, xs, d))
    decreases d, 0, |xs|
  {
    if xs != [] {
      hide PostOrder, Visible, BusList;
      var init, x := xs[..|xs| - 1], xs[|xs| - 1];
      assert xs == init + [x];
      assert x in xs;
      FlatPostOrder(s, bus, init, d);
      if IsBridge(s, x) {
        BusListPostOrder(s, SecondaryBus(s, x), d - 1);
      }
      PieceInOrder(s, x, d);
      PostOrderConcat(s, Flat(s, init, d), Behind(s, x, d) + [x]);
      assert Flat(s, init, d) + (Behind(s, x, d) + [x]) == Flat(s, xs, d);
    }
  }

  lemma PieceInOrder(s: Space, x: Dev, d: nat)
    requires Visible(s, x) && Bounded(s, x.bus, d) && PostOrder(s, Behind(s, x, d))
    ensures PostOrder(s, Behind(s, x, d) + [x])
  {
    hide Visible, SecondaryBus, Reaches, BusList;
    var ys := Behind(s, x, d);
    forall j, y | 0 <= j <= |ys| && IsBridge(s, (ys + [x])[j]) && Reaches(s, SecondaryBus(s, (ys + [x])[j]), y)
      ensures y in (ys + [x])[..j]
    {
      if j < |ys| {
        assert (ys + [x])[j] == ys[j] && (ys + [x])[..j] == ys[..j];
      } else {
        InBusList(s, SecondaryBus(s, x), d - 1, y);
        assert (ys + [x])[..j] == ys;
      }
    }
  }

  lemma BusListPostOrder(s: Space, bus: bv8, d: nat)
    requires Bounded(s, bus, d)
    ensures PostOrder(s, BusList(s, bus, d))
    decreases d, 1, 0
  {
    OnBus(s, bus, 32);
    FlatPostOrder(s, bus, Devices(s, bus, 32), d);
  }

  lemma {:induction false} RootListPostOrder(s: Space, n: bv8, d: nat)
    requires forall b: bv8 :: b < n ==> Bounded(s, b, d)
    ensures PostOrder(s, RootList(s, n, d))
    decreases n
  {
    hide PostOrder, BusList, Bounded;
    if n != 0 {
      var m := n - 1;
      RootListPostOrder(s, m, d);
      BusListPostOrder(s, m, d);
      PostOrderConcat(s, RootList(s, m, d), BusList(s, m, d));
    } else {
      NothingListed(s);
    }
  }

  lemma NothingListed(s: Space)
    ensures PostOrder(s, [])
  {
  }

  /** A bridge that made it into the vector was recorded after everything behind it, so nothing behind
      it is missing even when the vector overflowed. */
  lemma RecordedBehind(s: Space, d: nat, j: nat, y: Dev)
    requires Scannable(s, d)
    requires var xs := Capped(ScanList(s, d));
      j < |xs| && IsBridge(s, xs[j]) && Reaches(s, SecondaryBus(s, xs[j]), y)
    ensures y in Capped(ScanList(s, d))[..j]
  {
    hide Reaches, IsBridge, SecondaryBus, ScanList;
    var all := ScanList(s, d);
    assert PostOrder(s, all) by {
      RootListPostOrder(s, Roots(s), d);
      assert all == RootList(s, Roots(s), d) by {
        Unfolded(s, d);
      }
    }
    assert Capped(all)[j] == all[j] && Capped(all)[..j] == all[..j];
  }

  lemma Unfolded(s: Space, d: nat)
    ensures ScanList(s, d) == RootList(s, Roots(s), d)
  {
  }
}
