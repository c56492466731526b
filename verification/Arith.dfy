/** Product, quotient and remainder of variables, as recursive functions. They are the ordinary
    `*`, `/` and `%` (lemmas MulIs, DivIs and ModIs); written this way the block and inode numbering
    stays inside linear arithmetic and its few facts are the lemmas below. */
module Arith {
  function Mul(a: nat, b: nat): nat {
    if a == 0 then 0 else Mul(a - 1, b) + b
  }

  function Div(a: nat, m: nat): nat
    requires 0 < m
  {
    if a < m then 0 else 1 + Div(a - m, m)
  }

  function Mod(a: nat, m: nat): (r: nat)
    requires 0 < m
    ensures r < m
  {
    if a < m then a else Mod(a - m, m)
  }

  lemma {:induction false} MulIs(a: nat, b: nat)
    ensures Mul(a, b) == a * b
  {
    if a > 0 {
      MulIs(a - 1, b);
    }
  }

  lemma {:induction false} MulDivMod(a: nat, m: nat)
    requires 0 < m
    ensures a == Mul(Div(a, m), m) + Mod(a, m)
  {
    if a >= m {
      MulDivMod(a - m, m);
    }
  }

  lemma {:induction false} DivModUnique(k: nat, i: nat, m: nat)
    requires i < m
    ensures Div(Mul(k, m) + i, m) == k && Mod(Mul(k, m) + i, m) == i
  {
    if k > 0 {
      DivModUnique(k - 1, i, m);
    }
  }

  lemma DivIs(a: nat, m: nat)
    requires 0 < m
    ensures Div(a, m) == a / m
  {
    var q, r := a / m, a % m;
    MulIs(q, m);
    assert a == Mul(q, m) + r;
    DivModUnique(q, r, m);
  }

  lemma ModIs(a: nat, m: nat)
    requires 0 < m
    ensures Mod(a, m) == a % m
  {
    var q, r := a / m, a % m;
    MulIs(q, m);
    assert a == Mul(q, m) + r;
    DivModUnique(q, r, m);
  }

  lemma {:induction false} DivBelow(a: nat, b: nat, m: nat)
    requires 0 < m && a < Mul(b, m)
    ensures Div(a, m) < b
  {
    if a >= m {
      DivBelow(a - m, b - 1, m);
    }
  }

  /** Numbers are equal when their quotients and remainders are. */
  lemma SameDivMod(a: nat, b: nat, m: nat)
    requires 0 < m && Div(a, m) == Div(b, m) && Mod(a, m) == Mod(b, m)
    ensures a == b
  {
    MulDivMod(a, m);
    MulDivMod(b, m);
  }

  lemma {:induction false} MulApart(i: nat, j: nat, m: nat)
    requires i < j
    ensures Mul(i, m) + m <= Mul(j, m)
  {
    if i + 1 < j {
      MulApart(i, j - 1, m);
    }
  }

  lemma {:induction false} MulBound(a: nat, b: nat)
    requires b <= 32768
    ensures Mul(a, b) <= 32768 * a
  {
    if a > 0 {
      MulBound(a - 1, b);
    }
  }

  lemma {:induction false} MulAdd(i: nat, j: nat, m: nat)
    ensures Mul(i + j, m) == Mul(i, m) + Mul(j, m)
  {
    if j > 0 {
      MulAdd(i, j - 1, m);
    }
  }

  /** Slots of a size that divides 4096 do not straddle 4096-byte blocks. */
  lemma {:induction false} SlotFits(isz: nat, q: nat, idx: nat)
    requires 0 < isz && Mul(q, isz) == 4096
    ensures Mul(idx, isz) % 4096 + isz <= 4096
    decreases idx
  {
    if idx < q {
      MulApart(idx, q, isz);
    } else {
      MulAdd(idx - q, q, isz);
      assert q > 0;
      SlotFits(isz, q, idx - q);
    }
  }

  lemma SlotsDisjoint(i: nat, j: nat, isz: nat)
    requires i != j
    ensures var a, b := Mul(i, isz), Mul(j, isz);
      a / 4096 != b / 4096 || a % 4096 + isz <= b % 4096 || b % 4096 + isz <= a % 4096
  {
    if i < j {
      MulApart(i, j, isz);
    } else {
      MulApart(j, i, isz);
    }
  }
}
