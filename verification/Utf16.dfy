/**
 UTF-16 text as JavaScript strings hold it, and the SDK's key comparator: by code
 point, while section 3.2.3 of RFC 8785 orders keys by code unit.
 */
module Utf16 {

  type Unit = u: int | 0 <= u < 0x1_0000

  type Text = seq<Unit>

  predicate IsLead(u: int) {
    0xD800 <= u < 0xDC00
  }

  predicate IsTrail(u: int) {
    0xDC00 <= u < 0xE000
  }

  predicate IsSurrogate(u: int) {
    IsLead(u) || IsTrail(u)
  }

  /** A pair starts at this position. */
  predicate PairAt(s: Text, i: nat) {
    i + 1 < |s| && IsLead(s[i]) && IsTrail(s[i + 1])
  }

  /** The unit at this position is half of a surrogate pair. */
  predicate Paired(s: Text, i: nat)
    requires i < |s|
  {
    PairAt(s, i) || (i > 0 && PairAt(s, i - 1))
  }

  function CodePointAt(s: Text, i: nat): (cp: int)
    requires i < |s|
    ensures cp > 0xFFFF <==> PairAt(s, i)
    ensures !PairAt(s, i) ==> cp == s[i]
  {
    if PairAt(s, i) then
      var lead: int, trail: int := s[i], s[i + 1];
      0x1_0000 + (lead - 0xD800) * 0x400 + (trail - 0xDC00)
    else s[i]
  }

  function Width(cp: int): nat {
    if cp > 0xFFFF then 2 else 1
  }

  /** The code points from a position on. */
  function CodePoints(s: Text, i: nat): seq<int>
    decreases |s| - i
  {
    if i >= |s| then [] else [CodePointAt(s, i)] + CodePoints(s, i + Width(CodePointAt(s, i)))
  }

  // ---- lexicographic order ----

  predicate LexLess(a: seq<int>, b: seq<int>) {
    if b == [] then false
    else if a == [] then true
    else a[0] < b[0] || (a[0] == b[0] && LexLess(a[1..], b[1..]))
  }

  lemma {:induction false} LexTransitive(a: seq<int>, b: seq<int>, c: seq<int>)
    requires LexLess(a, b) && LexLess(b, c)
    ensures LexLess(a, c)
  {
    if a != [] && a[0] == b[0] == c[0] {
      LexTransitive(a[1..], b[1..], c[1..]);
    }
  }

  lemma {:induction false} LexTrichotomy(a: seq<int>, b: seq<int>)
    ensures LexLess(a, b) || LexLess(b, a) || a == b
    ensures !(LexLess(a, b) && LexLess(b, a))
    ensures a == b ==> !LexLess(a, b)
  {
    if a != [] && b != [] && a[0] == b[0] {
      LexTrichotomy(a[1..], b[1..]);
      assert a == [a[0]] + a[1..] && b == [b[0]] + b[1..];
    }
  }

  // ---- the two orders on keys ----

  /** The order the comparator sorts by. */
  predicate KeyLess(a: Text, b: Text) {
    LexLess(CodePoints(a, 0), CodePoints(b, 0))
  }

  /** The order by code units. */
  predicate UnitLess(a: Text, b: Text) {
    LexLess(a, b)
  }

  /** No two texts from these positions on have the same code points. */
  lemma {:induction false} CodePointsInjective(a: Text, b: Text, i: nat)
    requires CodePoints(a, i) == CodePoints(b, i)
    requires i <= |a| && i <= |b| && a[..i] == b[..i]
    ensures a == b
    decreases |a| - i
  {
    if i == |a| || i == |b| {
      assert i == |a| == |b|;
    } else {
      var x, y := CodePointAt(a, i), CodePointAt(b, i);
      assert x == CodePoints(a, i)[0] == CodePoints(b, i)[0] == y;
      SameCodePoint(a, b, i);
      var n := i + Width(x);
      assert a[..n] == b[..n];
      assert CodePoints(a, n) == CodePoints(a, i)[1..];
      assert CodePoints(b, n) == CodePoints(b, i)[1..];
      CodePointsInjective(a, b, n);
    }
  }

  lemma SameCodePoint(a: Text, b: Text, i: nat)
    requires i < |a| && i < |b| && CodePointAt(a, i) == CodePointAt(b, i)
    ensures a[i] == b[i] && (PairAt(a, i) <==> PairAt(b, i))
    ensures PairAt(a, i) ==> a[i + 1] == b[i + 1]
  {
  }

  /** The comparator's order is a strict total order on keys. */
  lemma KeyOrderIsTotal(a: Text, b: Text, c: Text)
    ensures !KeyLess(a, a)
    ensures KeyLess(a, b) || KeyLess(b, a) || a == b
    ensures !(KeyLess(a, b) && KeyLess(b, a))
    ensures KeyLess(a, b) && KeyLess(b, c) ==> KeyLess(a, c)
  {
    LexTrichotomy(CodePoints(a, 0), CodePoints(a, 0));
    LexTrichotomy(CodePoints(a, 0), CodePoints(b, 0));
    if CodePoints(a, 0) == CodePoints(b, 0) {
      CodePointsInjective(a, b, 0);
    }
    if KeyLess(a, b) && KeyLess(b, c) {
      LexTransitive(CodePoints(a, 0), CodePoints(b, 0), CodePoints(c, 0));
    }
  }

  /** The comparator: negative, zero or positive as the first key comes before, is,
      or comes after the second. */
  method CompareKeysByCodePoint(a: Text, b: Text) returns (r: int)
    ensures r < 0 <==> KeyLess(a, b)
    ensures r > 0 <==> KeyLess(b, a)
    ensures r == 0 <==> a == b
  {
    KeyOrderIsTotal(a, b, b);
    var i, j := 0, 0;
    while i < |a| && j < |b|
      invariant i == j <= |a| && j <= |b| && a[..i] == b[..j]
      invariant KeyLess(a, b) <==> LexLess(CodePoints(a, i), CodePoints(b, j))
      invariant KeyLess(b, a) <==> LexLess(CodePoints(b, j), CodePoints(a, i))
      decreases |a| - i
    {
      var cpA, cpB := CodePointAt(a, i), CodePointAt(b, j);
      if cpA != cpB {
        return cpA - cpB;
      }
      SameCodePoint(a, b, i);
      assert CodePoints(a, i)[1..] == CodePoints(a, i + Width(cpA));
      assert CodePoints(b, j)[1..] == CodePoints(b, j + Width(cpB));
      i := i + if cpA > 0xFFFF then 2 else 1;
      j := j + if cpB > 0xFFFF then 2 else 1;
    }
    return |a| - |b|;
  }

  // ---- where the two orders agree ----

  lemma {:induction false} NoSurrogates(s: Text, i: nat)
    requires i <= |s| && forall k | 0 <= k < |s| :: !IsSurrogate(s[k])
    ensures CodePoints(s, i) == s[i..]
    decreases |s| - i
  {
    if i < |s| {
      NoSurrogates(s, i + 1);
      assert s[i..] == [s[i]] + s[i + 1..];
    }
  }

  /** On keys without surrogates the comparator sorts by code unit. */
  lemma OrdersAgreeWithoutSurrogates(a: Text, b: Text)
    requires forall k | 0 <= k < |a| :: !IsSurrogate(a[k])
    requires forall k | 0 <= k < |b| :: !IsSurrogate(b[k])
    ensures KeyLess(a, b) <==> UnitLess(a, b)
  {
    NoSurrogates(a, 0);
    NoSurrogates(b, 0);
    assert a[0..] == a && b[0..] == b;
  }

  lemma {:induction false} LexFirstDifference(a: seq<int>, b: seq<int>, k: nat)
    requires k < |a| && k < |b| && a[..k] == b[..k] && a[k] != b[k]
    ensures LexLess(a, b) <==> a[k] < b[k]
  {
    if k > 0 {
      assert a[0] == a[..k][0] == b[..k][0] == b[0];
      assert a[1..][..k - 1] == a[..k][1..] && b[1..][..k - 1] == b[..k][1..];
      LexFirstDifference(a[1..], b[1..], k - 1);
    }
  }

  /** At the first differing unit, half of a surrogate pair in one key meets a
      greater unit in the other that is not half of a pair. */
  predicate Inverts(a: Text, b: Text, k: nat)
    requires k < |a| && k < |b|
  {
    || (Paired(a, k) && !Paired(b, k) && a[k] < b[k])
    || (Paired(b, k) && !Paired(a, k) && b[k] < a[k])
  }

  lemma {:induction false} CodePointOrder(a: Text, b: Text, k: nat, i: nat)
    requires i <= k < |a| && k < |b| && a[..k] == b[..k] && a[k] != b[k]
    requires i > 0 ==> !PairAt(a, i - 1) && !PairAt(b, i - 1)
    ensures LexLess(CodePoints(a, i), CodePoints(b, i)) <==> ((a[k] < b[k]) != Inverts(a, b, k))
    decreases k - i
  {
    var x, y := CodePointAt(a, i), CodePointAt(b, i);
    assert CodePoints(a, i)[0] == x && CodePoints(b, i)[0] == y;
    if i < k {
      assert a[i] == a[..k][i] == b[..k][i] == b[i];
      if i + 1 == k && IsLead(a[i]) {
        LeadBefore(a, b, k);
      } else {
        assert i + 1 < k ==> a[i + 1] == a[..k][i + 1] == b[..k][i + 1] == b[i + 1];
        assert x == y;
        assert CodePoints(a, i)[1..] == CodePoints(a, i + Width(x));
        assert CodePoints(b, i)[1..] == CodePoints(b, i + Width(x));
        CodePointOrder(a, b, k, i + Width(x));
      }
    } else {
      assert !(i > 0 && PairAt(a, i - 1)) && !(i > 0 && PairAt(b, i - 1));
    }
  }

  /** The difference falls right behind a common lead surrogate. */
  lemma LeadBefore(a: Text, b: Text, k: nat)
    requires 0 < k < |a| && k < |b| && a[k - 1] == b[k - 1] && IsLead(a[k - 1]) && a[k] != b[k]
    ensures LexLess(CodePoints(a, k - 1), CodePoints(b, k - 1)) <==> ((a[k] < b[k]) != Inverts(a, b, k))
  {
    var i := k - 1;
    var x, y := CodePointAt(a, i), CodePointAt(b, i);
    assert CodePoints(a, i)[0] == x && CodePoints(b, i)[0] == y;
    if x == y {
      assert !PairAt(a, i) && !PairAt(b, i);
      assert CodePoints(a, i)[1..] == CodePoints(a, k) && CodePoints(b, i)[1..] == CodePoints(b, k);
      assert CodePoints(a, k)[0] == CodePointAt(a, k) && CodePoints(b, k)[0] == CodePointAt(b, k);
    }
  }

  /** For all keys that differ at some unit, well formed or not, the comparator and
      the code-unit order of RFC 8785 agree exactly when that first difference is no
      inversion. In well-formed text an inversion is half of a pair meeting a unit
      from U+E000 up. */
  lemma OrdersAgreeExactly(a: Text, b: Text, k: nat)
    requires k < |a| && k < |b| && a[..k] == b[..k] && a[k] != b[k]
    ensures (KeyLess(a, b) <==> UnitLess(a, b)) <==> !Inverts(a, b, k)
  {
    LexFirstDifference(a, b, k);
    CodePointOrder(a, b, k, 0);
  }

  lemma {:induction false} ProperPrefix(a: Text, b: Text, i: nat)
    requires a < b && i <= |a|
    ensures LexLess(CodePoints(a, i), CodePoints(b, i)) && LexLess(a[i..], b[i..])
    decreases |a| - i
  {
    if i < |a| {
      var x, y := CodePointAt(a, i), CodePointAt(b, i);
      assert a[i] == b[i] && (i + 1 < |a| ==> a[i + 1] == b[i + 1]);
      ProperPrefix(a, b, i + 1);
      assert a[i..][1..] == a[i + 1..] && b[i..][1..] == b[i + 1..];
      if x == y {
        ProperPrefix(a, b, i + Width(x));
        assert CodePoints(a, i)[1..] == CodePoints(a, i + Width(x));
        assert CodePoints(b, i)[1..] == CodePoints(b, i + Width(x));
      } else {
        assert CodePoints(a, i)[0] == x && CodePoints(b, i)[0] == y;
      }
    }
  }

  /** A key that is the beginning of another comes first in both orders. */
  lemma OrdersAgreeOnPrefixes(a: Text, b: Text)
    requires a < b
    ensures KeyLess(a, b) && UnitLess(a, b)
  {
    ProperPrefix(a, b, 0);
    assert a[0..] == a && b[0..] == b;
  }

  /** Every surrogate is half of a pair. */
  predicate IsWellFormed(s: Text) {
    forall i | 0 <= i < |s| && IsSurrogate(s[i]) :: Paired(s, i)
  }

  lemma InversionsInWellFormedText(a: Text, b: Text, k: nat)
    requires k < |a| && k < |b| && IsWellFormed(a) && IsWellFormed(b)
    ensures Inverts(a, b, k) <==> (IsSurrogate(a[k]) && b[k] >= 0xE000) || (IsSurrogate(b[k]) && a[k] >= 0xE000)
  {
  }
}
