/**
 * The byte-addressed memory every command acts on, and the sized access
 * macros of h/monitor.h: peek8/16/32/64 read a 1-, 2-, 4- or 8-byte cell and
 * poke8/16/32/64 write one, truncating the value to the cell's width. The
 * target is little-endian, so byte k of a cell holds bits 8k .. 8k+7.
 */
module MemoryCells {
  import opened MonitorDefs

  /** Byte k (0 = least significant) of v: what a little-endian store puts at a + k. */
  function ByteOf(v: nat, k: nat): Byte
  {
    if k == 0 then v % 256 else ByteOf(v / 256, k - 1)
  }

  /** Byte k of v is its base-256 digit of weight 256^k: the store is little-endian. */
  lemma {:induction false} ByteOfDigit(v: nat, k: nat)
    ensures ByteOf(v, k) == v / Pow(256, k) % 256
    decreases k
  {
    if k > 0 {
      ByteOfDigit(v / 256, k - 1);
      DivDiv(v, 256, Pow(256, k - 1));
    }
  }

  /** Multiplying by d keeps the order. */
  lemma {:induction false} MulLe(d: nat, x: nat, y: nat)
    requires x <= y
    ensures d * x <= d * y
    decreases d
  {
    if d > 0 {
      MulLe(d - 1, x, y);
      assert d * x == (d - 1) * x + x && d * y == (d - 1) * y + y;
    }
  }

  /** Dividing by d and then by p is dividing by d * p. */
  lemma DivDiv(v: nat, d: nat, p: nat)
    requires d > 0 && p > 0
    ensures v / d / p == v / (d * p)
  {
    var q1, r1 := v / d, v % d;
    var q2, r2 := q1 / p, q1 % p;
    var dp, r: nat := d * p, d * r2 + r1;
    assert dp > 0 && r < dp && v == dp * q2 + r by {
      assert v == d * q1 + r1 && q1 == p * q2 + r2;
      DivDivParts(d, p, q2, r2, r1);
    }
    DivModUnique(v, dp, q2, r);
  }

  /** The arithmetic of DivDiv: q1 = p * q2 + r2 and v = d * q1 + r1 give the quotient and remainder by d * p. */
  lemma DivDivParts(d: nat, p: nat, q2: nat, r2: nat, r1: nat)
    requires r1 < d && r2 < p
    ensures d * (p * q2 + r2) + r1 == (d * p) * q2 + (d * r2 + r1)
    ensures d * r2 + r1 < d * p
  {
    MulLe(d, r2, p - 1);
    assert d * (p - 1) == d * p - d;
  }

  /** The memory of the board: every address holds a byte. */
  ghost predicate Total(m: map<Addr, Byte>)
  {
    forall a: Addr :: a in m
  }

  /** The value of the w-byte cell at a (peek). */
  function Load(m: map<Addr, Byte>, a: nat, w: nat): (v: nat)
    requires Total(m) && a + w <= ADDR_LIMIT
    ensures v < Pow(256, w)
    decreases w
  {
    if w == 0 then 0 else m[a] + 256 * Load(m, a + 1, w - 1)
  }

  /** The memory after writing v into the w-byte cell at a (poke). */
  function Store(m: map<Addr, Byte>, a: nat, w: nat, v: nat): map<Addr, Byte>
    requires a + w <= ADDR_LIMIT
  {
    map x | x in m :: if a <= x < a + w then ByteOf(v, x - a) else m[x]
  }

  /** A cell whose bytes are those of v reads back as v truncated to the cell. */
  lemma {:induction false} LoadStoredBytes(m: map<Addr, Byte>, a: nat, w: nat, v: nat)
    requires Total(m) && a + w <= ADDR_LIMIT
    requires forall x: Addr :: a <= x < a + w ==> m[x] == ByteOf(v, x - a)
    ensures Load(m, a, w) == v % Pow(256, w)
    decreases w
  {
    if w > 0 {
      forall x: Addr | a + 1 <= x < a + w
        ensures m[x] == ByteOf(v / 256, x - (a + 1))
      {
        assert ByteOf(v, x - a) == ByteOf(v / 256, x - a - 1);
      }
      LoadStoredBytes(m, a + 1, w - 1, v / 256);
      assert m[a] == v % 256 by { assert ByteOf(v, a - a) == v % 256; }
      ModSplit(v, Pow(256, w - 1));
    }
  }

  /** A poke followed by a peek of the same cell gives the value truncated to the cell. */
  lemma LoadStore(m: map<Addr, Byte>, a: nat, w: nat, v: nat)
    requires Total(m) && a + w <= ADDR_LIMIT
    ensures Total(Store(m, a, w, v))
    ensures Load(Store(m, a, w, v), a, w) == v % Pow(256, w)
  {
    LoadStoredBytes(Store(m, a, w, v), a, w, v);
  }

  /** A poke leaves every cell that does not overlap it unchanged. */
  lemma {:induction false} LoadStoreDisjoint(m: map<Addr, Byte>, a: nat, w: nat, v: nat, b: nat, n: nat)
    requires Total(m) && a + w <= ADDR_LIMIT && b + n <= ADDR_LIMIT
    requires b + n <= a || a + w <= b
    ensures Total(Store(m, a, w, v))
    ensures Load(Store(m, a, w, v), b, n) == Load(m, b, n)
    decreases n
  {
    if n > 0 {
      LoadStoreDisjoint(m, a, w, v, b + 1, n - 1);
    }
  }

  /** Every byte of the value zero is zero, so a zero store clears its cell. */
  lemma {:induction false} ByteOfZero(k: nat)
    ensures ByteOf(0, k) == 0
  {
    if k > 0 {
      ByteOfZero(k - 1);
    }
  }

  /** The stores the memory has been asked to perform, in order. */
  datatype StoreOp = StoreOp(addr: Addr, width: Width)

  class Memory {
    var cells: map<Addr, Byte>
    /** Every sized store issued so far, for stating alignment properties. */
    ghost var stores: seq<StoreOp>

    ghost predicate Valid()
      reads this
    {
      Total(cells)
    }

    constructor (init: map<Addr, Byte>)
      requires Total(init)
      ensures Valid() && cells == init && stores == []
    {
      cells := init;
      stores := [];
    }

    /** peek8/16/32/64: the value of the w-byte cell at a. */
    function Peek(a: Addr, w: Width): (v: nat)
      reads this
      requires Valid() && a + w <= ADDR_LIMIT
      ensures v < Pow(256, w)
    {
      Load(cells, a, w)
    }

    /** poke8/16/32/64: write v, truncated to w bytes, into the cell at a. */
    method Poke(a: Addr, w: Width, v: nat)
      requires Valid() && a + w <= ADDR_LIMIT
      modifies this
      ensures Valid()
      ensures cells == Store(old(cells), a, w, v)
      ensures Peek(a, w) == v % Pow(256, w)
      ensures stores == old(stores) + [StoreOp(a, w)]
    {
      LoadStore(cells, a, w, v);
      cells := Store(cells, a, w, v);
      stores := stores + [StoreOp(a, w)];
    }
  }
}
