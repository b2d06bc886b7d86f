/** The reader of all binary strings in order of length: 0, 1, 00, 01, 10, 11, 000, ...
    (internal/bitstring/bitstring.go). */
module Bitstring {
  import opened Arithmetic

  /** A place in the enumeration: bit `pos` of string number `i` among those of length `n`. */
  datatype Spot = Spot(n: nat, i: nat, pos: nat)

  predicate IsSpot(s: Spot) {
    1 <= s.n && s.i < Pow(2, s.n) && s.pos < s.n
  }

  /** The bits of all shorter strings together. */
  function Before(n: nat): int {
    (n - 2) * Pow(2, n) + 2
  }

  /** How many bits come before a spot. */
  function Position(s: Spot): int {
    Before(s.n) + s.i * s.n + s.pos
  }

  function Advance(s: Spot): Spot {
    if s.pos + 1 < s.n then s.(pos := s.pos + 1)
    else if s.i + 1 < Pow(2, s.n) then Spot(s.n, s.i + 1, 0)
    else Spot(s.n + 1, 0, 0)
  }

  /** Where the reader stands after k bits. */
  function SpotAfter(k: nat): Spot {
    if k == 0 then Spot(1, 0, 0) else Advance(SpotAfter(k - 1))
  }

  /** Most significant bit first. */
  function BitOf(s: Spot): nat
    requires IsSpot(s)
  {
    PowPositive(2, s.n - 1 - s.pos);
    s.i / Pow(2, s.n - 1 - s.pos) % 2
  }

  lemma NextLength(n: int, p: int)
    ensures (n - 2) * p + 2 + p * n == (n - 1) * (2 * p) + 2
  {
    assert (n - 2) * p == n * p - 2 * p;
    assert (n - 1) * (2 * p) == 2 * (n * p) - 2 * p;
  }

  lemma LastOfLength(n: int, p: int, i: int)
    requires i == p - 1
    ensures i * n + n == p * n
  {
  }

  lemma AdvanceCounts(s: Spot)
    requires IsSpot(s)
    ensures IsSpot(Advance(s)) && Position(Advance(s)) == Position(s) + 1
  {
    PowPositive(2, s.n + 1);
    if s.pos + 1 < s.n {
    } else if s.i + 1 < Pow(2, s.n) {
      assert (s.i + 1) * s.n == s.i * s.n + s.n;
    } else {
      NextLength(s.n, Pow(2, s.n));
      LastOfLength(s.n, Pow(2, s.n), s.i);
    }
  }

  /** After k bits the reader's state satisfies k == (n - 2) * 2^n + 2 + i * n + pos, within bounds. */
  lemma {:induction false} SpotCounts(k: nat)
    ensures IsSpot(SpotAfter(k)) && Position(SpotAfter(k)) == k
  {
    if k > 0 {
      SpotCounts(k - 1);
      AdvanceCounts(SpotAfter(k - 1));
    }
  }

  lemma WithinLength(s: Spot)
    requires IsSpot(s)
    ensures Before(s.n) <= Position(s) < Before(s.n + 1)
  {
    NextLength(s.n, Pow(2, s.n));
    MulMonotone(s.i + 1, s.n, Pow(2, s.n), s.n);
    assert (s.i + 1) * s.n == s.i * s.n + s.n;
  }

  lemma {:induction false} BeforeMonotone(m: nat, n: nat)
    requires 1 <= m <= n
    ensures Before(m) <= Before(n)
    decreases n
  {
    if m < n {
      BeforeMonotone(m, n - 1);
      NextLength(n - 1, Pow(2, n - 1));
      PowPositive(2, n - 1);
      MulMonotone(0, 0, Pow(2, n - 1), n - 1);
    }
  }

  lemma SplitUnique(n: nat, i: nat, p: nat, j: nat, q: nat)
    requires i * n + p == j * n + q && p < n && q < n
    ensures i == j && p == q
  {
    var total := i * n + p;
    assert total == n * i + p;
    assert total == n * j + q;
    DivModUnique(total, n, i, p);
    DivModUnique(total, n, j, q);
  }

  /** No two spots share a position. */
  lemma PositionInjective(s: Spot, t: Spot)
    requires IsSpot(s) && IsSpot(t) && Position(s) == Position(t)
    ensures s == t
  {
    hide Before, Pow;
    WithinLength(s);
    WithinLength(t);
    if s.n < t.n {
      BeforeMonotone(s.n + 1, t.n);
    } else if t.n < s.n {
      BeforeMonotone(t.n + 1, s.n);
    } else {
      SplitUnique(s.n, s.i, s.pos, t.i, t.pos);
    }
  }

  /** Every binary string of every length appears, and its bits stand at their closed-form positions
      and nowhere else. */
  lemma EveryStringOnce(s: Spot)
    requires IsSpot(s)
    ensures Position(s) >= 0 && SpotAfter(Position(s)) == s
    ensures forall k: nat :: SpotAfter(k) == s <==> k == Position(s)
  {
    BeforeMonotone(1, s.n);
    WithinLength(s);
    SpotCounts(Position(s));
    PositionInjective(SpotAfter(Position(s)), s);
    forall k: nat | SpotAfter(k) == s
      ensures k == Position(s)
    {
      SpotCounts(k);
    }
  }

  // ---- reading ------------------------------------------------------------------------

  function Bit(k: nat): nat {
    SpotCounts(k);
    BitOf(SpotAfter(k))
  }

  /** The number whose binary digits are the `count` bits from k on. */
  function BitsFrom(k: nat, count: nat): nat {
    if count == 0 then 0 else 2 * BitsFrom(k, count - 1) + Bit(k + count - 1)
  }

  /** The bytes of a read that starts after k bits. */
  function Bytes(k: nat, length: nat): seq<nat> {
    seq(length, j requires 0 <= j < length => BitsFrom(k + 8 * j, 8))
  }

  /** Shifting eight bits into a byte loses none of them. */
  lemma {:induction false} BitsFit(k: nat, count: nat)
    ensures BitsFrom(k, count) < Pow(2, count)
  {
    if count > 0 {
      BitsFit(k, count - 1);
    }
  }

  lemma HalvedTwice(i: nat, p: nat)
    requires 0 < p
    ensures 2 * (i / (p * 2)) + i / p % 2 == i / p
  {
    var q, r := i / p, i % p;
    assert i == p * q + r;
    var h := q / 2;
    assert q == 2 * h + q % 2;
    assert p * q == p * (2 * h) + p * (q % 2);
    assert i == (p * 2) * h + (p * (q % 2) + r);
    assert p * (q % 2) + r < p * 2;
    DivModUnique(i, p * 2, h, p * (q % 2) + r);
  }

  lemma PositionWithin(n: nat, i: nat, pos: nat)
    ensures Position(Spot(n, i, pos)) == Position(Spot(n, i, 0)) + pos
  {
  }

  lemma BitWithin(n: nat, i: nat, count: nat)
    requires 1 <= count <= n && i < Pow(2, n) && Position(Spot(n, i, 0)) >= 0
    ensures 0 < Pow(2, n - count) && Bit(Position(Spot(n, i, 0)) + count - 1) == i / Pow(2, n - count) % 2
  {
    hide Position, Pow;
    PowPositive(2, n - count);
    EveryStringOnce(Spot(n, i, count - 1));
    PositionWithin(n, i, count - 1);
  }

  lemma OneMoreBit(k: nat, count: nat)
    requires count > 0
    ensures BitsFrom(k, count) == 2 * BitsFrom(k, count - 1) + Bit(k + count - 1)
  {
  }

  lemma {:induction false} LeadingBits(n: nat, i: nat, count: nat)
    requires 1 <= n && i < Pow(2, n) && count <= n && Position(Spot(n, i, 0)) >= 0
    ensures 0 < Pow(2, n - count) && BitsFrom(Position(Spot(n, i, 0)), count) == i / Pow(2, n - count)
  {
    hide Position, Bit;
    if count == 0 {
      PowPositive(2, n);
      DivModUnique(i, Pow(2, n), 0, i);
    } else {
      LeadingBits(n, i, count - 1);
      assert Pow(2, n - (count - 1)) == Pow(2, n - count) * 2;
      hide Pow, BitsFrom;
      BitWithin(n, i, count);
      OneMoreBit(Position(Spot(n, i, 0)), count);
      HalvedTwice(i, Pow(2, n - count));
    }
  }

  /** The n bits from where string number i of length n begins are that number in binary. */
  lemma StringBits(n: nat, i: nat)
    requires 1 <= n && i < Pow(2, n)
    ensures Position(Spot(n, i, 0)) >= 0 && BitsFrom(Position(Spot(n, i, 0)), n) == i
  {
    EveryStringOnce(Spot(n, i, 0));
    LeadingBits(n, i, n);
  }

  lemma StepOn(k: nat)
    ensures SpotAfter(0) == Spot(1, 0, 0) && SpotAfter(k + 1) == Advance(SpotAfter(k)) && IsSpot(SpotAfter(k))
    ensures Bit(k) == BitOf(SpotAfter(k))
  {
    SpotCounts(k);
  }

  /** Splitting a read into several gives the same bytes. */
  lemma ReadsSplit(k: nat, a: nat, b: nat)
    ensures Bytes(k, a + b) == Bytes(k, a) + Bytes(k + 8 * a, b)
  {
  }

  class Reader {
    var n: nat
    var i: nat
    var limit: nat
    var pos: nat
    ghost var read: nat   // bits so far

    /** Before the first bit nothing is set up; from then on the fields are the spot after `read` bits. */
    ghost predicate Valid()
      reads this
    {
      if n == 0 then read == 0 && i == 0 && pos == 0
      else limit == Pow(2, n) && Spot(n, i, pos) == SpotAfter(read)
    }

    constructor ()
      ensures Valid() && read == 0
    {
      n, i, limit, pos, read := 0, 0, 0, 0, 0;
    }

    method NextN()
      modifies `n, `i, `limit, `pos
      ensures n == old(n) + 1 && i == 0 && pos == 0 && limit == Pow(2, n)
    {
      n := n + 1;
      pos := 0;
      i := 0;
      limit := Pow(2, n);
    }

    method NextBit() returns (bit: nat)
      requires Valid()
      modifies this
      ensures Valid() && read == old(read) + 1 && bit == Bit(old(read))
    {
      hide Pow, SpotAfter, Bit;
      StepOn(read);
      if n == 0 {
        NextN();
      }
      var shift := n - 1 - pos;
      PowPositive(2, shift);
      bit := i / Pow(2, shift) % 2;
      pos := pos + 1;
      if pos >= n {
        pos := 0;
        i := i + 1;
        if i >= limit {
          NextN();
        }
      }
      read := read + 1;
    }

    method Read(p: array<nat>) returns (count: nat)
      requires Valid()
      modifies this, p
      ensures Valid() && count == p.Length && read == old(read) + 8 * p.Length
      ensures p[..] == Bytes(old(read), p.Length)
    {
      hide Valid, Bit;
      for j := 0 to p.Length
        invariant Valid() && read == old(read) + 8 * j
        invariant forall x :: 0 <= x < j ==> p[x] == BitsFrom(old(read) + 8 * x, 8)
      {
        var b: nat := 0;
        for t := 0 to 8
          invariant Valid() && read == old(read) + 8 * j + t && b == BitsFrom(old(read) + 8 * j, t)
          invariant forall x :: 0 <= x < j ==> p[x] == BitsFrom(old(read) + 8 * x, 8)
        {
          var bit := NextBit();
          b := 2 * b + bit;
        }
        p[j] := b;
      }
      return p.Length;
    }
  }
}
