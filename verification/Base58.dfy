/**
 base58btc and `did:key`: the verifier's in-place decoder, the big-integer
 encoder of the example agent and the digit-array encoder of the SDK's keygen
 command, all tied to one numeral-based specification.

 A Go string is ranged over by rune, so text is a sequence of characters here.
 */
module Base58 {
  import opened Wrappers
  import opened Digits

  type Byte = b: nat | b < 256

  const ALPHABET: string :=
    "123456789" + "ABCDEFGH" + "JKLMN" + "PQRSTUVWXYZ" + "abcdefghijk" + "mnopqrstuvwxyz"

  // ---- the alphabet ----

  /** The character code of each symbol; it grows with the digit. */
  function Code(i: nat): (c: nat)
    requires i < 58
    ensures c < 256
  {
    if i < 9 then 49 + i
    else if i < 17 then 65 + (i - 9)
    else if i < 22 then 74 + (i - 17)
    else if i < 33 then 80 + (i - 22)
    else if i < 44 then 97 + (i - 33)
    else 109 + (i - 44)
  }

  function Symbol(i: nat): char
    requires i < 58
  {
    Code(i) as char
  }

  /** The alphabet as the sources spell it out. */
  lemma AlphabetSymbols()
    ensures |ALPHABET| == 58
    ensures forall i | 0 <= i < 58 :: ALPHABET[i] == Symbol(i)
  {
  }

  function IndexFrom(c: char, from: nat): (i: int)
    requires from <= 58
    ensures -1 <= i < 58
    decreases 58 - from
  {
    if from == 58 then -1
    else if Code(from) == c as int then from
    else IndexFrom(c, from + 1)
  }

  /** The digit a character stands for, or -1. */
  function IndexOf(c: char): (i: int)
    ensures -1 <= i < 58
  {
    IndexFrom(c, 0)
  }

  lemma {:induction false} IndexFromMeaning(c: char, from: nat)
    requires from <= 58
    ensures var i := IndexFrom(c, from);
            && (i >= 0 ==> i >= from && Code(i) == c as int)
            && (i < 0 ==> forall k | from <= k < 58 :: Code(k) != c as int)
    decreases 58 - from
  {
    if from < 58 {
      IndexFromMeaning(c, from + 1);
    }
  }

  /** The index is that of the symbol in the alphabet; -1 stands for no symbol. */
  lemma IndexOfMeaning(c: char)
    ensures IndexOf(c) >= 0 ==> Symbol(IndexOf(c)) == c
    ensures IndexOf(c) < 0 <==> c !in ALPHABET
  {
    AlphabetSymbols();
    IndexFromMeaning(c, 0);
    if IndexOf(c) >= 0 {
      assert ALPHABET[IndexOf(c)] == c;
    }
  }

  lemma IndexOfSymbol(i: nat)
    requires i < 58
    ensures IndexOf(Symbol(i)) == i
  {
    IndexFromMeaning(Symbol(i), 0);
    assert Code(IndexOf(Symbol(i))) == Code(i);
  }

  predicate InAlphabet(s: string) {
    forall i | 0 <= i < |s| :: IndexOf(s[i]) >= 0
  }

  function DigitsOf(s: string): (ds: seq<nat>)
    requires InAlphabet(s)
    ensures |ds| == |s| && IsNumeral(ds, 58)
  {
    seq(|s|, i requires 0 <= i < |s| => IndexOf(s[i]))
  }

  function TextOf(ds: seq<nat>): (s: string)
    requires IsNumeral(ds, 58)
    ensures |s| == |ds|
  {
    seq(|ds|, i requires 0 <= i < |ds| => Symbol(ds[i]))
  }

  lemma DigitsOfText(ds: seq<nat>)
    requires IsNumeral(ds, 58)
    ensures InAlphabet(TextOf(ds)) && DigitsOf(TextOf(ds)) == ds
  {
    forall i | 0 <= i < |ds| ensures IndexOf(TextOf(ds)[i]) == ds[i] {
      IndexOfSymbol(ds[i]);
    }
  }

  lemma TextOfDigits(s: string)
    requires InAlphabet(s)
    ensures TextOf(DigitsOf(s)) == s
  {
    forall i | 0 <= i < |s| ensures Symbol(IndexOf(s[i])) == s[i] {
      IndexOfMeaning(s[i]);
    }
  }

  lemma TextOfConcat(a: seq<nat>, b: seq<nat>)
    requires IsNumeral(a, 58) && IsNumeral(b, 58)
    ensures IsNumeral(a + b, 58) && TextOf(a + b) == TextOf(a) + TextOf(b)
  {
  }

  // ---- specification of the two directions ----

  datatype DecodeError =
    | InvalidCharacter(c: char)  // reported to the caller
    | IndexOutOfRange(c: char)   // the 256-entry table is indexed past its end

  /** The first character that stops the decoder, if any. */
  function FirstFault(s: string): (f: Option<DecodeError>)
    ensures f.None? <==> InAlphabet(s)
  {
    if s == "" then None
    else if IndexOf(s[0]) >= 0 then
      assert s == [s[0]] + s[1..];
      FirstFault(s[1..])
    else if s[0] as int >= 256 then Some(IndexOutOfRange(s[0]))
    else Some(InvalidCharacter(s[0]))
  }

  lemma {:induction false} FaultAt(s: string, k: nat)
    requires k < |s| && InAlphabet(s[..k]) && IndexOf(s[k]) < 0
    ensures FirstFault(s) == Some(if s[k] as int >= 256 then IndexOutOfRange(s[k]) else InvalidCharacter(s[k]))
  {
    if k > 0 {
      assert s[..k][0] == s[0];
      assert s[1..][..k - 1] == s[..k][1..];
      FaultAt(s[1..], k - 1);
    }
  }

  /** The decoder stops at this place, on this character. */
  ghost predicate StopsAt(s: string, k: nat, c: char) {
    k < |s| && InAlphabet(s[..k]) && s[k] == c && c !in ALPHABET
  }

  /** It stops there on a character that indexes the table past its end. */
  ghost predicate OverrunsAt(s: string, k: nat) {
    k < |s| && StopsAt(s, k, s[k]) && s[k] as int >= 256
  }

  lemma {:induction false} FaultIsSomewhere(s: string) returns (k: nat)
    requires !InAlphabet(s)
    ensures k < |s| && InAlphabet(s[..k]) && IndexOf(s[k]) < 0
  {
    if IndexOf(s[0]) < 0 {
      k := 0;
    } else {
      assert s == [s[0]] + s[1..];
      k := FaultIsSomewhere(s[1..]);
      assert s[..k + 1] == [s[0]] + s[1..][..k];
      k := k + 1;
    }
  }

  /** The outcome on a bad string, read off its characters: the table is indexed past
      its end exactly when the first character outside the alphabet has code 256 or
      above; a character below that is reported. */
  lemma FaultExactly(s: string, c: char)
    ensures FirstFault(s) == Some(IndexOutOfRange(c)) <==> c as int >= 256 && exists k :: StopsAt(s, k, c)
    ensures FirstFault(s) == Some(InvalidCharacter(c)) <==> c as int < 256 && exists k :: StopsAt(s, k, c)
  {
    if !InAlphabet(s) {
      var k := FaultIsSomewhere(s);
      FaultAt(s, k);
      IndexOfMeaning(s[k]);
      assert StopsAt(s, k, s[k]);
    }
    if k :| StopsAt(s, k, c) {
      IndexOfMeaning(c);
      FaultAt(s, k);
    }
  }

  function DecodedDigits(ds: seq<nat>): (r: seq<Byte>)
    requires IsNumeral(ds, 58)
  {
    Zeros(LeadingZeros(ds)) + Numeral(Value(ds, 58), 256)
  }

  /** What decoding means: as many zero bytes as there are leading zero digits,
      then the number the digits denote, in base 256. */
  function Decode(s: string): (r: Result<seq<Byte>, DecodeError>)
    ensures r.Ok? <==> InAlphabet(s)
  {
    match FirstFault(s)
    case Some(e) => Err(e)
    case None => Ok(DecodedDigits(DigitsOf(s)))
  }

  function EncodedDigits(bytes: seq<Byte>): (ds: seq<nat>)
    ensures IsNumeral(ds, 58)
  {
    Zeros(LeadingZeros(bytes)) + Numeral(Value(bytes, 256), 58)
  }

  /** What encoding means, the same way round. */
  function Encode(bytes: seq<Byte>): string {
    TextOf(EncodedDigits(bytes))
  }

  // ---- round trips ----

  /** Decoding undoes encoding, on every byte string. */
  lemma DecodeEncode(bytes: seq<Byte>)
    ensures Decode(Encode(bytes)) == Ok(bytes)
  {
    var ds := EncodedDigits(bytes);
    var n := Value(bytes, 256);
    DigitsOfText(ds);
    LeadingZerosOf(LeadingZeros(bytes), Numeral(n, 58));
    ValueIgnoresLeadingZeros(LeadingZeros(bytes), Numeral(n, 58), 58);
    ValueNumeral(n, 58);
    Decompose(bytes, 256);
  }

  /** Encoding undoes decoding, on every string over the alphabet. */
  lemma EncodeDecode(s: string)
    requires InAlphabet(s)
    ensures Decode(s).Ok? && Encode(Decode(s).value) == s
  {
    var ds := DigitsOf(s);
    var n := Value(ds, 58);
    LeadingZerosOf(LeadingZeros(ds), Numeral(n, 256));
    ValueIgnoresLeadingZeros(LeadingZeros(ds), Numeral(n, 256), 256);
    ValueNumeral(n, 256);
    Decompose(ds, 58);
    assert EncodedDigits(Decode(s).value) == ds;
    TextOfDigits(s);
  }

  /** No two strings decode to the same bytes. */
  lemma DecodeInjective(s: string, t: string)
    requires Decode(s).Ok? && Decode(s) == Decode(t)
    ensures s == t
  {
    EncodeDecode(s);
    EncodeDecode(t);
  }

  // ---- the decoder ----

  /** `lookup[c]` for every character below 256. */
  method BuildLookup() returns (lookup: array<int>)
    ensures fresh(lookup) && IsLookup(lookup)
  {
    AlphabetSymbols();
    lookup := new int[256](_ => -1);
    for i := 0 to 58
      invariant forall k | 0 <= k < i :: lookup[Code(k)] == k
      invariant forall v | 0 <= v < 256 :: lookup[v] == -1 || (0 <= lookup[v] < i && Code(lookup[v]) == v)
    {
      lookup[ALPHABET[i] as int] := i;
    }
    forall c: char | c as int < 256 ensures lookup[c as int] == IndexOf(c) {
      IndexFromMeaning(c, 0);
      var v := lookup[c as int];
      if v != -1 {
        IndexOfSymbol(v);
        assert Symbol(v) == c;
      }
    }
  }

  /** The first `k` characters are digits of the number `n`. */
  ghost predicate Denotes(s: string, k: nat, n: nat)
    requires k <= |s|
  {
    InAlphabet(s[..k]) && n == Value(DigitsOf(s[..k]), 58)
  }

  lemma DenotesNext(s: string, k: nat, n: nat)
    requires k < |s| && Denotes(s, k, n)
    ensures IndexOf(s[k]) >= 0 ==> Denotes(s, k + 1, n * 58 + IndexOf(s[k]))
    ensures IndexOf(s[k]) < 0 ==>
              FirstFault(s) == Some(if s[k] as int >= 256 then IndexOutOfRange(s[k]) else InvalidCharacter(s[k]))
  {
    if IndexOf(s[k]) < 0 {
      FaultAt(s, k);
    } else {
      DigitsOfSnoc(s, k);
    }
  }

  lemma DigitsOfSnoc(s: string, k: nat)
    requires k < |s| && InAlphabet(s[..k]) && IndexOf(s[k]) >= 0
    ensures InAlphabet(s[..k + 1])
    ensures Value(DigitsOf(s[..k + 1]), 58) == Value(DigitsOf(s[..k]), 58) * 58 + IndexOf(s[k])
  {
    assert s[..k + 1] == s[..k] + [s[k]];
    assert DigitsOf(s[..k + 1]) == DigitsOf(s[..k]) + [IndexOf(s[k])];
    ValueSnoc(DigitsOf(s[..k]), IndexOf(s[k]), 58);
  }

  method Base58Decode(s: string) returns (r: Result<seq<Byte>, DecodeError>)
    ensures r == Decode(s)
  {
    var lookup := BuildLookup();
    var integer := DecodeInteger(s, lookup);
    if integer.Err? {
      return Err(integer.error);
    }
    var result := PrependZeros(s, integer.value);
    return Ok(result[..]);
  }

  method DecodeInteger(s: string, lookup: array<int>) returns (r: Result<array<nat>, DecodeError>)
    requires IsLookup(lookup)
    ensures match FirstFault(s)
            case Some(e) => r == Err(e)
            case None => r.Ok? && r.value[..] == Numeral(Value(DigitsOf(s), 58), 256)
  {
    var result := new nat[0];
    ghost var n: nat := 0;
    for k := 0 to |s|
      invariant Denotes(s, k, n)
      invariant fresh(result) && result[..] == Numeral(n, 256)
    {
      var digit := LookUp(lookup, s[k]);
      DenotesNext(s, k, n);
      if digit.Err? {
        return Err(digit.error);
      }
      result := PushDigit(result, digit.value, n);
      n := n * 58 + digit.value;
    }
    assert s[..|s|] == s;
    return Ok(result);
  }

  ghost predicate IsLookup(lookup: array<int>)
    reads lookup
  {
    lookup.Length == 256 && forall c: char | c as int < 256 :: lookup[c as int] == IndexOf(c)
  }

  method LookUp(lookup: array<int>, c: char) returns (r: Result<nat, DecodeError>)
    requires IsLookup(lookup)
    ensures r == if IndexOf(c) >= 0 then Ok(IndexOf(c))
                 else Err(if c as int >= 256 then IndexOutOfRange(c) else InvalidCharacter(c))
  {
    IndexFromMeaning(c, 0);
    if c as int >= 256 {
      return Err(IndexOutOfRange(c));
    }
    var digit := lookup[c as int];
    if digit < 0 {
      return Err(InvalidCharacter(c));
    }
    return Ok(digit);
  }

  method PushDigit(buffer: array<nat>, digit: nat, ghost n: nat) returns (result: array<nat>)
    requires buffer[..] == Numeral(n, 256)
    modifies buffer
    ensures result == buffer || fresh(result)
    ensures result[..] == Numeral(n * 58 + digit, 256)
  {
    MulAddNumeral(n, 58, digit, 256);
    var carry := MultiplyAdd(buffer, 58, digit, 256);
    result := PrependCarry(buffer, carry, 256);
  }

  /** One zero byte in front for every leading `1`. */
  method PrependZeros(s: string, body: array<nat>) returns (result: array<nat>)
    requires InAlphabet(s)
    ensures result[..] == Zeros(LeadingZeros(DigitsOf(s))) + body[..]
  {
    ghost var ds := DigitsOf(s);
    result := body;
    var ones := 0;
    while ones < |s| && s[ones] == '1'
      invariant ones <= |s|
      invariant forall i | 0 <= i < ones :: ds[i] == 0
      invariant result[..] == Zeros(ones) + body[..]
    {
      OneIsZero(s[ones]);
      result := Prepend(0, result);
      ones := ones + 1;
      assert Zeros(ones) == [0] + Zeros(ones - 1);
    }
    if ones < |s| {
      OneIsZero(s[ones]);
    }
    ZeroRun(ds, ones);
  }

  lemma OneIsZero(c: char)
    ensures IndexOf(c) == 0 <==> c == '1'
  {
    IndexOfMeaning(c);
    IndexOfSymbol(0);
  }

  lemma ZeroRun(ds: seq<nat>, k: nat)
    requires k <= |ds| && forall i | 0 <= i < k :: ds[i] == 0
    requires k < |ds| ==> ds[k] != 0
    ensures LeadingZeros(ds) == k
  {
  }

  lemma LeadingZeroHere(ds: seq<nat>, k: nat)
    requires k < |ds| && ds[k] == 0 && k <= LeadingZeros(ds)
    ensures k < LeadingZeros(ds)
  {
  }

  // ---- the two encoders ----

  /** The example agent's encoder: one big integer, then repeated division. */
  method EncodeBigInteger(bytes: seq<Byte>) returns (result: string)
    ensures result == Encode(bytes)
  {
    var n: nat := 0;
    for k := 0 to |bytes|
      invariant n == Value(bytes[..k], 256)
    {
      n := n * 256 + bytes[k];
      BytesSnoc(bytes, k);
    }
    assert bytes[..|bytes|] == bytes;
    ghost var total := Numeral(n, 58);
    ghost var tail: seq<nat> := [];
    result := "";
    while n > 0
      invariant IsNumeral(tail, 58) && result == TextOf(tail)
      invariant Numeral(n, 58) + tail == total
    {
      var remainder := n % 58;
      assert Numeral(n, 58) + tail == Numeral(n / 58, 58) + ([remainder] + tail);
      n := n / 58;
      AlphabetSymbols();
      result := [ALPHABET[remainder]] + result;
      TextOfConcat([remainder], tail);
      tail := [remainder] + tail;
    }
    result := PrependOnes(bytes, result, total);
  }

  /** One `1` in front for every leading zero byte. */
  method PrependOnes(bytes: seq<Byte>, body: string, ghost ds: seq<nat>) returns (result: string)
    requires IsNumeral(ds, 58) && body == TextOf(ds)
    ensures result == TextOf(Zeros(LeadingZeros(bytes)) + ds)
  {
    result := body;
    var k := 0;
    assert Zeros(0) + ds == ds;
    while k < |bytes| && bytes[k] == 0
      invariant k <= LeadingZeros(bytes)
      invariant result == TextOf(Zeros(k) + ds)
    {
      LeadingZeroHere(bytes, k);
      result := ['1'] + result;
      TextOfConcat([0], Zeros(k) + ds);
      assert TextOf([0]) == ['1'];
      assert Zeros(k + 1) + ds == [0] + (Zeros(k) + ds);
      k := k + 1;
    }
  }

  /** Some byte is not zero. */
  ghost predicate HasNonzero(bytes: seq<Byte>) {
    exists i | 0 <= i < |bytes| :: bytes[i] != 0
  }

  lemma {:induction false} ValueZeroMeansAllZero(bytes: seq<Byte>)
    ensures Value(bytes, 256) != 0 <==> HasNonzero(bytes)
  {
    if bytes != [] {
      var init, last := bytes[..|bytes| - 1], bytes[|bytes| - 1];
      ValueZeroMeansAllZero(init);
      if HasNonzero(init) {
        var i :| 0 <= i < |init| && init[i] != 0;
        assert bytes[i] != 0;
      }
      if HasNonzero(bytes) && last == 0 {
        var i :| 0 <= i < |bytes| && bytes[i] != 0;
        assert init[i] != 0;
      }
    }
  }

  /** The digits keygen holds for the number `n`: it starts from one zero digit,
      which only a nonzero number replaces. */
  ghost function HeldDigits(n: nat): (ds: seq<nat>)
    ensures IsNumeral(ds, 58)
  {
    if n == 0 then [0] else Numeral(n, 58)
  }

  lemma HeldStep(n: nat, byte: Byte)
    ensures var (lo, carry) := MulAdd(HeldDigits(n), 256, byte, 58);
            Numeral(carry, 58) + lo == HeldDigits(n * 256 + byte)
  {
    if n == 0 {
      ZeroStep(byte);
    } else {
      NonzeroStep(n, byte, n * 256 + byte);
    }
  }

  lemma NonzeroStep(n: nat, byte: Byte, next: nat)
    requires n > 0 && next == n * 256 + byte
    ensures var (lo, carry) := MulAdd(HeldDigits(n), 256, byte, 58);
            Numeral(carry, 58) + lo == HeldDigits(next)
  {
    var ds := Numeral(n, 58);
    MulAddNumeral(n, 256, byte, 58);
    var pass := MulAdd(ds, 256, byte, 58);
    assert Numeral(pass.1, 58) + pass.0 == Numeral(next, 58);
    assert HeldDigits(n) == ds;
  }

  lemma ZeroStep(byte: Byte)
    ensures var (lo, carry) := MulAdd([0], 256, byte, 58);
            Numeral(carry, 58) + lo == HeldDigits(byte)
  {
    assert MulAdd([0], 256, byte, 58) == ([] + [byte % 58], byte / 58);
    if byte > 0 {
      assert Numeral(byte, 58) == Numeral(byte / 58, 58) + [byte % 58];
    }
  }

  /** keygen's encoder. It agrees with the big-integer encoder exactly on inputs
      with a nonzero byte; on the others it writes one `1` too many. */
  method EncodeDigitArray(bytes: seq<Byte>) returns (result: string)
    ensures HasNonzero(bytes) ==> result == Encode(bytes)
    ensures !HasNonzero(bytes) ==> result == Encode(bytes) + "1"
  {
    var digits := HoldDigits(bytes);
    result := WriteDigits(bytes, digits[..]);
    HeldDigitsPrint(bytes);
  }

  method HoldDigits(bytes: seq<Byte>) returns (digits: array<nat>)
    ensures digits[..] == HeldDigits(Value(bytes, 256))
  {
    digits := new nat[1](_ => 0);
    for k := 0 to |bytes|
      invariant fresh(digits) && digits[..] == HeldDigits(Value(bytes[..k], 256))
    {
      BytesSnoc(bytes, k);
      digits := PushByte(digits, bytes[k], Value(bytes[..k], 256));
    }
    assert bytes[..|bytes|] == bytes;
  }

  lemma HeldDigitsPrint(bytes: seq<Byte>)
    ensures TextOf(Zeros(LeadingZeros(bytes)) + HeldDigits(Value(bytes, 256))) ==
            if HasNonzero(bytes) then Encode(bytes) else Encode(bytes) + "1"
  {
    ValueZeroMeansAllZero(bytes);
    if !HasNonzero(bytes) {
      ZeroDigitPrintsOne(bytes);
    }
  }

  method PushByte(held: array<nat>, byte: Byte, ghost n: nat) returns (digits: array<nat>)
    requires held[..] == HeldDigits(n)
    modifies held
    ensures digits == held || fresh(digits)
    ensures digits[..] == HeldDigits(n * 256 + byte)
  {
    HeldStep(n, byte);
    var carry := MultiplyAdd(held, 256, byte, 58);
    digits := PrependCarry(held, carry, 58);
  }

  lemma BytesSnoc(bytes: seq<Byte>, k: nat)
    requires k < |bytes|
    ensures Value(bytes[..k + 1], 256) == Value(bytes[..k], 256) * 256 + bytes[k]
  {
    assert bytes[..k + 1] == bytes[..k] + [bytes[k]];
    ValueSnoc(bytes[..k], bytes[k], 256);
  }

  lemma ZeroDigitPrintsOne(bytes: seq<Byte>)
    requires Value(bytes, 256) == 0
    ensures TextOf(Zeros(LeadingZeros(bytes)) + [0]) == Encode(bytes) + "1"
  {
    var zeros := Zeros(LeadingZeros(bytes));
    assert EncodedDigits(bytes) == zeros;
    TextOfConcat(zeros, [0]);
    assert TextOf([0]) == "1";
  }

  /** Leading `1`s first, then the symbols of the digit array. */
  method WriteDigits(bytes: seq<Byte>, digits: seq<nat>) returns (result: string)
    requires IsNumeral(digits, 58)
    ensures result == TextOf(Zeros(LeadingZeros(bytes)) + digits)
  {
    result := "";
    var k := 0;
    while k < |bytes| && bytes[k] == 0
      invariant k <= LeadingZeros(bytes)
      invariant result == TextOf(Zeros(k))
    {
      LeadingZeroHere(bytes, k);
      result := result + ['1'];
      TextOfConcat(Zeros(k), [0]);
      assert TextOf([0]) == ['1'];
      assert Zeros(k + 1) == Zeros(k) + [0];
      k := k + 1;
    }
    ghost var prefix := Zeros(k);
    for d := 0 to |digits|
      invariant result == TextOf(prefix + digits[..d])
    {
      AlphabetSymbols();
      result := result + [ALPHABET[digits[d]]];
      assert prefix + digits[..d + 1] == prefix + digits[..d] + [digits[d]];
      TextOfConcat(prefix + digits[..d], [digits[d]]);
    }
    assert digits[..|digits|] == digits;
  }

  // ---- did:key ----

  const DID_KEY_PREFIX: string := "did:key:z"

  const MULTICODEC: seq<Byte> := [0xed, 0x01]

  datatype KeyError =
    | UnsupportedMethod
    | Undecodable(error: DecodeError)
    | WrongLength(length: nat)
    | WrongKeyType(hi: Byte, lo: Byte)

  method ResolveDidKey(did: string) returns (r: Result<seq<Byte>, KeyError>)
    ensures r == KeyOfDid(did)
  {
    if !(DID_KEY_PREFIX <= did) {
      return Err(UnsupportedMethod);
    }
    var decoded := Base58Decode(did[|DID_KEY_PREFIX|..]);
    match decoded {
      case Err(e) => return Err(Undecodable(e));
      case Ok(bytes) =>
        if |bytes| != 34 {
          return Err(WrongLength(|bytes|));
        }
        if bytes[..2] != MULTICODEC {
          return Err(WrongKeyType(bytes[0], bytes[1]));
        }
        return Ok(bytes[2..]);
    }
  }

  function KeyOfDid(did: string): Result<seq<Byte>, KeyError> {
    if !(DID_KEY_PREFIX <= did) then Err(UnsupportedMethod)
    else
      match Decode(did[|DID_KEY_PREFIX|..])
      case Err(e) => Err(Undecodable(e))
      case Ok(bytes) =>
        if |bytes| != 34 then Err(WrongLength(|bytes|))
        else if bytes[..2] != MULTICODEC then Err(WrongKeyType(bytes[0], bytes[1]))
        else Ok(bytes[2..])
  }

  /** Resolving indexes the decoder's table past its end exactly on a `did:key` whose
      first character outside the alphabet has code 256 or above. */
  lemma TableOverrunExactly(did: string, c: char)
    ensures KeyOfDid(did) == Err(Undecodable(IndexOutOfRange(c))) <==>
            && DID_KEY_PREFIX <= did && c as int >= 256
            && exists k :: StopsAt(did[|DID_KEY_PREFIX|..], k, c)
  {
    if DID_KEY_PREFIX <= did {
      FaultExactly(did[|DID_KEY_PREFIX|..], c);
    }
  }

  /** For instance on a single letter behind the prefix. */
  lemma TableOverrunExample()
    ensures KeyOfDid(DID_KEY_PREFIX + ['\U{0100}']) == Err(Undecodable(IndexOutOfRange('\U{0100}')))
  {
    var did, c := DID_KEY_PREFIX + ['\U{0100}'], '\U{0100}';
    assert did[|DID_KEY_PREFIX|..] == [c];
    IndexOfMeaning(c);
    IndexFromMeaning(c, 0);
    assert InAlphabet([c][..0]) && StopsAt([c], 0, c);
    TableOverrunExactly(did, c);
  }

  function DidOfKey(key: seq<Byte>): string {
    DID_KEY_PREFIX + Encode(MULTICODEC + key)
  }

  /** Both issuers print the same identifier for a key. */
  method PublicKeyToDidKey(key: seq<Byte>) returns (fromAgent: string, fromKeygen: string)
    ensures fromAgent == fromKeygen == DidOfKey(key)
  {
    var prefixed := MULTICODEC + key;
    assert prefixed[0] != 0;
    var a := EncodeBigInteger(prefixed);
    var b := EncodeDigitArray(prefixed);
    fromAgent, fromKeygen := DID_KEY_PREFIX + a, DID_KEY_PREFIX + b;
  }

  /** A string resolves to a key exactly when it is the identifier the issuers
      print for that key: resolution accepts no second spelling. */
  lemma DidKeyRoundTrip(did: string, key: seq<Byte>)
    ensures KeyOfDid(did) == Ok(key) <==> |key| == 32 && did == DidOfKey(key)
  {
    if |key| == 32 && did == DidOfKey(key) {
      DecodeEncode(MULTICODEC + key);
      assert did[|DID_KEY_PREFIX|..] == Encode(MULTICODEC + key);
      assert (MULTICODEC + key)[..2] == MULTICODEC && (MULTICODEC + key)[2..] == key;
    }
    if KeyOfDid(did) == Ok(key) {
      var text := did[|DID_KEY_PREFIX|..];
      EncodeDecode(text);
      assert Decode(text).value == MULTICODEC + key;
      assert did == DID_KEY_PREFIX + text;
    }
  }

  lemma DecodesExactly(text: string, bytes: seq<Byte>)
    ensures Decode(text) == Ok(bytes) <==> text == Encode(bytes)
  {
    DecodeEncode(bytes);
    if Decode(text) == Ok(bytes) {
      EncodeDecode(text);
    }
  }

  /** The identifiers that are turned away for what they encode: any other number of
      bytes than 34, and 34 bytes with other first two than 0xed and 0x01. */
  lemma KeyErrors(did: string, bytes: seq<Byte>)
    requires did == DID_KEY_PREFIX + Encode(bytes)
    ensures KeyOfDid(did) ==
            if |bytes| != 34 then Err(WrongLength(|bytes|))
            else if bytes[0] != 0xed || bytes[1] != 0x01 then Err(WrongKeyType(bytes[0], bytes[1]))
            else Ok(bytes[2..])
  {
    assert did[|DID_KEY_PREFIX|..] == Encode(bytes);
    DecodeEncode(bytes);
    if |bytes| == 34 {
      assert bytes[..2] == [bytes[0], bytes[1]];
    }
  }

  lemma DecodableExactly(text: string)
    ensures Decode(text).Ok? <==> exists bytes :: text == Encode(bytes)
  {
    if Decode(text).Ok? {
      DecodesExactly(text, Decode(text).value);
    }
    if bytes :| text == Encode(bytes) {
      DecodesExactly(text, bytes);
    }
  }

  /** And those that are not `did:key` with that prefix, or do not decode. */
  lemma OtherKeyErrors(did: string)
    ensures KeyOfDid(did) == Err(UnsupportedMethod) <==> !("did:key:z" <= did)
    ensures KeyOfDid(did).Err? && KeyOfDid(did).error.Undecodable? <==>
            "did:key:z" <= did && !exists bytes :: did[9..] == Encode(bytes)
  {
    if DID_KEY_PREFIX <= did {
      DecodableExactly(did[9..]);
    }
  }
}
