/** Numbers as rows of equally wide bit fields; field 0 holds the lowest bits. */
module BitFields {
  import Arith

  /** Shift right by `i` fields and mask: `u >> (i * bits) & (base - 1)` for `base == 1 << bits`. */
  function Field(u: nat, base: nat, i: nat): nat
    requires base > 0
    decreases i
  {
    if i == 0 then u % base else Field(u / base, base, i - 1)
  }

  /** Clear field `i` and set it to `v`: `(u & ~((base - 1) << (i * bits))) | (v << (i * bits))`. */
  function Insert(u: nat, base: nat, i: nat, v: nat): nat
    requires base > 0 && v < base
    decreases i
  {
    if i == 0 then u / base * base + v else Insert(u / base, base, i - 1, v) * base + u % base
  }

  /** One more than the largest number of `n` fields. */
  function Limit(base: nat, n: nat): nat {
    if n == 0 then 1 else base * Limit(base, n - 1)
  }

  lemma FieldOfSum(q: nat, r: nat, base: nat, i: nat)
    requires r < base
    ensures Field(q * base + r, base, i) == if i == 0 then r else Field(q, base, i - 1)
  {
    Arith.DivModUnique(q * base + r, base, q, r);
  }

  /** Reading a field after setting one: the value just set, or what was there before. */
  lemma {:induction false} FieldOfInsert(u: nat, base: nat, i: nat, v: nat, j: nat)
    requires v < base
    ensures Field(Insert(u, base, i, v), base, j) == if i == j then v else Field(u, base, j)
    decreases i
  {
    if i == 0 {
      FieldOfSum(u / base, v, base, j);
    } else {
      FieldOfSum(Insert(u / base, base, i - 1, v), u % base, base, j);
      if j > 0 {
        FieldOfInsert(u / base, base, i - 1, v, j - 1);
      }
    }
  }

  /** Setting a field of a unit keeps the unit in range. */
  lemma {:induction false} InsertFits(u: nat, base: nat, n: nat, i: nat, v: nat)
    requires v < base && i < n && u < Limit(base, n)
    ensures Insert(u, base, i, v) < Limit(base, n)
    decreases i
  {
    QuotientFits(u, base, n);
    if i == 0 {
      SumFits(u / base, v, base, n);
    } else {
      InsertFits(u / base, base, n - 1, i - 1, v);
      SumFits(Insert(u / base, base, i - 1, v), u % base, base, n);
    }
  }

  lemma QuotientFits(u: nat, base: nat, n: nat)
    requires base > 0 && n > 0 && u < Limit(base, n)
    ensures u / base < Limit(base, n - 1)
  {
    Arith.DivModIdentity(u, base);
    if u / base >= Limit(base, n - 1) {
      Arith.MulMonotone(base, Limit(base, n - 1), u / base);
    }
  }

  lemma SumFits(q: nat, r: nat, base: nat, n: nat)
    requires r < base && n > 0 && q < Limit(base, n - 1)
    ensures q * base + r < Limit(base, n)
  {
    Arith.MulMonotone(base, q + 1, Limit(base, n - 1));
  }

  lemma {:induction false} FieldFits(u: nat, base: nat, i: nat)
    requires base > 0
    ensures Field(u, base, i) < base
    decreases i
  {
    if i == 0 {
    } else {
      FieldFits(u / base, base, i - 1);
    }
  }

  /** A unit is known from its fields. */
  lemma {:induction false} FieldsDetermine(u: nat, v: nat, base: nat, n: nat)
    requires base > 0 && u < Limit(base, n) && v < Limit(base, n)
    requires forall i :: 0 <= i < n ==> Field(u, base, i) == Field(v, base, i)
    ensures u == v
    decreases n
  {
    if n == 0 {
    } else {
      QuotientFits(u, base, n);
      QuotientFits(v, base, n);
      assert Field(u, base, 0) == Field(v, base, 0);
      forall i | 0 <= i < n - 1 ensures Field(u / base, base, i) == Field(v / base, base, i) {
        assert Field(u, base, i + 1) == Field(v, base, i + 1);
      }
      FieldsDetermine(u / base, v / base, base, n - 1);
      Arith.DivModIdentity(u, base);
      Arith.DivModIdentity(v, base);
    }
  }
}
