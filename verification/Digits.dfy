/**
 Positional numerals, most significant digit first, in any base above one.
 Base 256 and base 58 are used by the base58 codecs, base 10 by the revocation
 log.
 */
module Digits {

  ghost predicate IsNumeral(ds: seq<nat>, base: nat) {
    forall i | 0 <= i < |ds| :: ds[i] < base
  }

  /** The number a digit list denotes. */
  function Value(ds: seq<nat>, base: nat): nat {
    if ds == [] then 0 else Value(ds[..|ds| - 1], base) * base + ds[|ds| - 1]
  }

  lemma ValueSnoc(ds: seq<nat>, d: nat, base: nat)
    ensures Value(ds + [d], base) == Value(ds, base) * base + d
  {
    assert (ds + [d])[..|ds|] == ds;
  }

  /** The shortest numeral of `n`; zero has no digits at all. */
  function Numeral(n: nat, base: nat): (ds: seq<nat>)
    requires base > 1
    ensures IsNumeral(ds, base)
    ensures ds != [] ==> ds[0] != 0
    ensures ds == [] <==> n == 0
  {
    if n == 0 then [] else
      DivShrinks(n, base);
      Numeral(n / base, base) + [n % base]
  }

  lemma DivShrinks(n: nat, base: nat)
    requires n > 0 && base > 1
    ensures 0 <= n / base < n
  {
    var q := n / base;
    DivMod(n, base);
    if q < 0 {
      MulAtLeast(-q, base);
    } else {
      MulMonotone(q, 2, base);
    }
  }

  lemma DivMod(n: int, base: nat)
    requires base > 0
    ensures (n / base) * base + n % base == n
    ensures 0 <= n % base < base
  {
  }

  lemma MulMonotone(k: nat, a: nat, b: nat)
    requires a <= b
    ensures k * a <= k * b
  {
  }

  lemma MulAtLeast(k: int, base: nat)
    requires k > 0
    ensures k * base >= base
  {
  }

  lemma QuotientBound(q: nat, n: nat, d: nat)
    requires d > 0 && q * d <= n
    ensures q <= n / d
  {
    DivMod(n, d);
    var r := n / d;
    assert (q - r) * d == q * d - r * d;
    if q > r {
      MulAtLeast(q - r, d);
    }
  }

  lemma QuotientUnique(q: int, r: nat, hi: int, lo: nat, base: nat)
    requires r < base && lo < base
    requires q * base + r == hi * base + lo
    ensures q == hi && r == lo
  {
    assert (q - hi) * base == lo - r;
    if q < hi {
      MulAtLeast(hi - q, base);
    } else if q > hi {
      MulAtLeast(q - hi, base);
    }
  }

  lemma SplitLast(hi: nat, lo: nat, base: nat)
    requires lo < base
    ensures (hi * base + lo) / base == hi && (hi * base + lo) % base == lo
  {
    var n := hi * base + lo;
    DivMod(n, base);
    QuotientUnique(n / base, n % base, hi, lo, base);
  }

  lemma {:induction false} ValueNumeral(n: nat, base: nat)
    requires base > 1
    ensures Value(Numeral(n, base), base) == n
  {
    if n > 0 {
      DivShrinks(n, base);
      ValueNumeral(n / base, base);
      ValueSnoc(Numeral(n / base, base), n % base, base);
      DivMod(n, base);
    }
  }

  /** A digit list without a leading zero is the shortest numeral of its value. */
  lemma {:induction false} NumeralValue(ds: seq<nat>, base: nat)
    requires base > 1 && IsNumeral(ds, base)
    requires ds != [] ==> ds[0] != 0
    ensures Numeral(Value(ds, base), base) == ds
  {
    if ds != [] {
      var init, last := ds[..|ds| - 1], ds[|ds| - 1];
      NumeralValue(init, base);
      SplitLast(Value(init, base), last, base);
      if init != [] {
        assert Value(init, base) > 0;
      }
      assert ds == init + [last];
    }
  }

  /** `k` leading zeros. */
  function Zeros(k: nat): (z: seq<nat>)
    ensures |z| == k && forall i | 0 <= i < k :: z[i] == 0
  {
    seq(k, _ => 0)
  }

  lemma {:induction false} ValueIgnoresLeadingZeros(k: nat, ds: seq<nat>, base: nat)
    ensures Value(Zeros(k) + ds, base) == Value(ds, base)
  {
    var all := Zeros(k) + ds;
    if ds != [] {
      ValueIgnoresLeadingZeros(k, ds[..|ds| - 1], base);
      assert all[..|all| - 1] == Zeros(k) + ds[..|ds| - 1];
    } else if k > 0 {
      ValueIgnoresLeadingZeros(k - 1, [], base);
      assert all[..|all| - 1] == Zeros(k - 1) + [];
      assert Value(all, base) == Value(all[..k - 1], base) * base + 0;
    }
  }

  /** How many leading zeros a digit list has. */
  function LeadingZeros(ds: seq<nat>): (k: nat)
    ensures k <= |ds|
    ensures forall i | 0 <= i < k :: ds[i] == 0
    ensures k < |ds| ==> ds[k] != 0
  {
    if ds != [] && ds[0] == 0 then 1 + LeadingZeros(ds[1..]) else 0
  }

  /** A digit list is its leading zeros followed by the shortest numeral of its
      value: no two digit lists share both. */
  lemma Decompose(ds: seq<nat>, base: nat)
    requires base > 1 && IsNumeral(ds, base)
    ensures ds == Zeros(LeadingZeros(ds)) + Numeral(Value(ds, base), base)
  {
    var k := LeadingZeros(ds);
    assert ds == Zeros(k) + ds[k..];
    ValueIgnoresLeadingZeros(k, ds[k..], base);
    NumeralValue(ds[k..], base);
  }

  lemma {:induction false} LeadingZerosOf(k: nat, ds: seq<nat>)
    requires ds != [] ==> ds[0] != 0
    ensures LeadingZeros(Zeros(k) + ds) == k
  {
    var all := Zeros(k) + ds;
    if k > 0 {
      LeadingZerosOf(k - 1, ds);
      assert all[1..] == Zeros(k - 1) + ds;
    } else {
      assert all == ds;
    }
  }

  // ---- one pass of multiply-and-add over a digit list ----

  /** The digits and the carry left after `ds * m + c`, computed from the last
      digit to the first. */
  function MulAdd(ds: seq<nat>, m: nat, c: nat, base: nat): (r: (seq<nat>, nat))
    requires base > 0
    ensures |r.0| == |ds| && IsNumeral(r.0, base)
  {
    if ds == [] then ([], c)
    else
      var t := c + m * ds[|ds| - 1];
      var (hi, carry) := MulAdd(ds[..|ds| - 1], m, t / base, base);
      (hi + [t % base], carry)
  }

  /** The number a pass leaves behind: its digits below the carry. */
  ghost function PassValue(ds: seq<nat>, m: nat, c: nat, base: nat): nat
    requires base > 1
  {
    var (lo, carry) := MulAdd(ds, m, c, base);
    Value(Numeral(carry, base) + lo, base)
  }

  lemma PassValueSnoc(init: seq<nat>, last: nat, m: nat, c: nat, base: nat)
    requires base > 1
    ensures var t := c + m * last;
            PassValue(init + [last], m, c, base) == PassValue(init, m, t / base, base) * base + t % base
  {
    var t := c + m * last;
    assert (init + [last])[..|init|] == init;
    var (hi, carry) := MulAdd(init, m, t / base, base);
    assert Numeral(carry, base) + (hi + [t % base]) == Numeral(carry, base) + hi + [t % base];
    ValueSnoc(Numeral(carry, base) + hi, t % base, base);
  }

  lemma {:induction false} MulAddValue(ds: seq<nat>, m: nat, c: nat, base: nat)
    requires base > 1
    ensures PassValue(ds, m, c, base) == Value(ds, base) * m + c
  {
    if ds == [] {
      ValueNumeral(c, base);
      assert Numeral(c, base) + [] == Numeral(c, base);
    } else {
      var init, last := ds[..|ds| - 1], ds[|ds| - 1];
      var t := c + m * last;
      MulAddValue(init, m, t / base, base);
      assert ds == init + [last];
      PassValueSnoc(init, last, m, c, base);
      DivMod(t, base);
      CarryOver(Value(init, base), m, last, c, t / base, t % base, base);
    }
  }

  lemma CarryOver(v: nat, m: nat, last: nat, c: nat, q: int, r: nat, base: nat)
    requires q * base + r == c + m * last
    ensures (v * m + q) * base + r == (v * base + last) * m + c
  {
    calc {
      (v * m + q) * base + r;
      v * m * base + q * base + r;
      v * m * base + c + m * last;
      { assert v * m * base == v * base * m; }
      v * base * m + last * m + c;
      (v * base + last) * m + c;
    }
  }

  lemma {:induction false} MulAddKeepsTopDigit(ds: seq<nat>, m: nat, c: nat, base: nat)
    requires base > 1 && m > 0
    requires ds != [] && ds[0] > 0 && MulAdd(ds, m, c, base).1 == 0
    ensures MulAdd(ds, m, c, base).0[0] > 0
  {
    var t := c + m * ds[|ds| - 1];
    assert m * ds[|ds| - 1] >= ds[|ds| - 1];
    if |ds| > 1 {
      MulAddKeepsTopDigit(ds[..|ds| - 1], m, t / base, base);
    } else {
      assert MulAdd(ds, m, c, base) == ([] + [t % base], t / base);
    }
  }

  /** One pass takes the shortest numeral of `n` to the shortest numeral of
      `n * m + c`. */
  lemma MulAddNumeral(n: nat, m: nat, c: nat, base: nat)
    requires base > 1 && m > 0
    ensures var (lo, carry) := MulAdd(Numeral(n, base), m, c, base);
            Numeral(carry, base) + lo == Numeral(n * m + c, base)
  {
    var ds := Numeral(n, base);
    var (lo, carry) := MulAdd(ds, m, c, base);
    var whole := Numeral(carry, base) + lo;
    MulAddValue(ds, m, c, base);
    ValueNumeral(n, base);
    if whole != [] && carry == 0 {
      MulAddKeepsTopDigit(ds, m, c, base);
    }
    NumeralValue(whole, base);
  }

  // ---- the same pass, half way through ----

  /** The digits from `j` on are final, `carry` is what they pass on. */
  ghost predicate PassAt(ds: seq<nat>, m: nat, c: nat, base: nat, j: nat, carry: nat, done: seq<nat>)
    requires base > 0 && j <= |ds|
  {
    MulAdd(ds, m, c, base) == (MulAdd(ds[..j], m, carry, base).0 + done, MulAdd(ds[..j], m, carry, base).1)
  }

  lemma PassStart(ds: seq<nat>, m: nat, c: nat, base: nat)
    requires base > 0
    ensures PassAt(ds, m, c, base, |ds|, c, [])
  {
    assert ds[..|ds|] == ds;
    assert MulAdd(ds, m, c, base).0 + [] == MulAdd(ds, m, c, base).0;
  }

  lemma PassStep(ds: seq<nat>, m: nat, c: nat, base: nat, j: nat, carry: nat, done: seq<nat>)
    requires base > 0 && j < |ds| && PassAt(ds, m, c, base, j + 1, carry, done)
    ensures var t := carry + m * ds[j];
            PassAt(ds, m, c, base, j, t / base, [t % base] + done)
  {
    var t := carry + m * ds[j];
    assert ds[..j + 1][..j] == ds[..j];
    var hi := MulAdd(ds[..j], m, t / base, base).0;
    assert hi + [t % base] + done == hi + ([t % base] + done);
  }

  lemma PassEnd(ds: seq<nat>, m: nat, c: nat, base: nat, carry: nat, done: seq<nat>)
    requires base > 0 && PassAt(ds, m, c, base, 0, carry, done)
    ensures MulAdd(ds, m, c, base) == (done, carry)
  {
    assert ds[..0] == [];
    assert [] + done == done;
  }

  /** Moving one digit of the carry in front of the digits that follow it. */
  lemma CarryStep(carry: nat, rest: seq<nat>, base: nat)
    requires base > 1 && carry > 0
    ensures Numeral(carry, base) + rest == Numeral(carry / base, base) + ([carry % base] + rest)
  {
    var hi, d := Numeral(carry / base, base), carry % base;
    assert hi + [d] + rest == hi + ([d] + rest);
  }

  /** Multiplies a digit buffer by `m` and adds `c`, rewriting it in place from the
      last digit to the first; what does not fit is left in `carry`. */
  method MultiplyAdd(buffer: array<nat>, m: nat, c: nat, base: nat) returns (carry: nat)
    requires base > 1
    modifies buffer
    ensures (buffer[..], carry) == MulAdd(old(buffer[..]), m, c, base)
  {
    ghost var ds := buffer[..];
    carry := c;
    var j := buffer.Length;
    PassStart(ds, m, c, base);
    assert buffer[j..] == [];
    while j > 0
      invariant j <= |ds| == buffer.Length
      invariant buffer[..j] == ds[..j]
      invariant PassAt(ds, m, c, base, j, carry, buffer[j..])
    {
      ghost var done := buffer[j..];
      PassStep(ds, m, c, base, j - 1, carry, done);
      j := j - 1;
      assert buffer[..j + 1][j] == ds[j];
      assert ds[..j] == ds[..j + 1][..j] == buffer[..j + 1][..j] == buffer[..j];
      carry := carry + m * buffer[j];
      buffer[j], carry := carry % base, carry / base;
      assert buffer[j..] == [buffer[j]] + done;
    }
    assert buffer[0..] == buffer[..];
    PassEnd(ds, m, c, base, carry, buffer[..]);
  }

  /** A new buffer with one digit in front. */
  method Prepend(d: nat, rest: array<nat>) returns (result: array<nat>)
    ensures fresh(result) && result[..] == [d] + rest[..]
  {
    result := new nat[rest.Length + 1](i requires 0 <= i <= rest.Length reads rest => if i == 0 then d else rest[i - 1]);
  }

  /** Prepends a carry, least significant digit last, until nothing is left of it. */
  method PrependCarry(rest: array<nat>, c: nat, base: nat) returns (result: array<nat>)
    requires base > 1
    ensures result == rest || fresh(result)
    ensures result[..] == Numeral(c, base) + rest[..]
  {
    result := rest;
    var carry: nat := c;
    while carry > 0
      invariant result == rest || fresh(result)
      invariant Numeral(carry, base) + result[..] == Numeral(c, base) + rest[..]
      decreases carry
    {
      CarryStep(carry, result[..], base);
      DivShrinks(carry, base);
      result := Prepend(carry % base, result);
      carry := carry / base;
    }
    assert Numeral(0, base) + result[..] == result[..];
  }
}
