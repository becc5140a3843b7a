/** Percent-decoding of one path segment, and what it does to the text. */
module PercentEncoding {
  import opened Wrappers

  predicate IsHex(c: char) {
    '0' <= c <= '9' || 'a' <= c <= 'f' || 'A' <= c <= 'F'
  }

  function HexValue(c: char): (v: nat)
    requires IsHex(c)
    ensures v < 16
  {
    if '0' <= c <= '9' then c as int - '0' as int
    else if 'a' <= c <= 'f' then c as int - 'a' as int + 10
    else c as int - 'A' as int + 10
  }

  /** Fails on a percent sign that two hexadecimal digits do not follow. */
  function PathUnescape(s: string): Option<string> {
    if s == "" then Some("")
    else if s[0] != '%' then
      match PathUnescape(s[1..])
      case Some(rest) => Some([s[0]] + rest)
      case None => None
    else if |s| >= 3 && IsHex(s[1]) && IsHex(s[2]) then
      match PathUnescape(s[3..])
      case Some(rest) => Some([(16 * HexValue(s[1]) + HexValue(s[2])) as char] + rest)
      case None => None
    else None
  }

  function Decoded(seg: string): string {
    match PathUnescape(seg)
    case Some(d) => d
    case None => seg
  }

  lemma {:induction false} NothingToDecode(seg: string)
    requires '%' !in seg
    ensures Decoded(seg) == seg
  {
    if seg != "" {
      NothingToDecode(seg[1..]);
      assert PathUnescape(seg[1..]).Some? || PathUnescape(seg[1..]).None?;
      UnescapeSucceeds(seg);
    }
  }

  lemma {:induction false} UnescapeSucceeds(seg: string)
    requires '%' !in seg
    ensures PathUnescape(seg) == Some(seg)
  {
    if seg != "" {
      UnescapeSucceeds(seg[1..]);
      assert seg == [seg[0]] + seg[1..];
    }
  }

  /** One escape behind text without any. */
  lemma {:induction false} UnescapeEscape(front: string, hex: string, rest: string)
    requires '%' !in front && |hex| == 2 && IsHex(hex[0]) && IsHex(hex[1]) && PathUnescape(rest).Some?
    ensures PathUnescape(front + "%" + hex + rest) ==
            Some(front + [(16 * HexValue(hex[0]) + HexValue(hex[1])) as char] + PathUnescape(rest).value)
  {
    var s := front + "%" + hex + rest;
    var c := (16 * HexValue(hex[0]) + HexValue(hex[1])) as char;
    if front == "" {
      assert s[0] == '%' && s[1] == hex[0] && s[2] == hex[1] && s[3..] == rest;
      assert front + [c] + PathUnescape(rest).value == [c] + PathUnescape(rest).value;
    } else {
      UnescapeEscape(front[1..], hex, rest);
      assert s[0] == front[0] && s[1..] == front[1..] + "%" + hex + rest;
      assert [front[0]] + (front[1..] + [c] + PathUnescape(rest).value) == front + [c] + PathUnescape(rest).value;
    }
  }

  // ---- decoding, read off the text ----

  /** Every percent sign is followed by two hexadecimal digits. */
  predicate WellEscaped(s: string) {
    forall k | 0 <= k < |s| && s[k] == '%' :: EscapeAt(s, k)
  }

  predicate EscapeAt(s: string, k: nat) {
    k + 2 < |s| && s[k] == '%' && IsHex(s[k + 1]) && IsHex(s[k + 2])
  }

  /** An escaped slash, in either case of the letter. */
  predicate SlashEscapeAt(s: string, k: nat) {
    k + 2 < |s| && s[k] == '%' && s[k + 1] == '2' && (s[k + 2] == 'F' || s[k + 2] == 'f')
  }

  /** How far decoding moves on for the first character that it makes. */
  function Step(s: string): (n: nat)
    requires s != "" && (s[0] == '%' ==> EscapeAt(s, 0))
    ensures 0 < n <= |s|
  {
    if s[0] == '%' then 3 else 1
  }

  lemma WellEscapedTail(s: string)
    requires s != "" && (s[0] == '%' ==> EscapeAt(s, 0))
    ensures WellEscaped(s) <==> WellEscaped(s[Step(s)..])
  {
    var n, t := Step(s), s[Step(s)..];
    forall k | 0 <= k < |t| ensures (t[k] == '%' ==> EscapeAt(t, k)) <==> (s[k + n] == '%' ==> EscapeAt(s, k + n)) {
    }
    if WellEscaped(t) {
      forall k | 0 <= k < |s| && s[k] == '%' ensures EscapeAt(s, k) {
        if k >= n {
          assert t[k - n] == '%';
        }
      }
    }
    if WellEscaped(s) {
      forall k | 0 <= k < |t| && t[k] == '%' ensures EscapeAt(t, k) {
        assert s[k + n] == '%';
      }
    }
  }

  /** Decoding fails exactly when some percent sign is not an escape. */
  lemma {:induction false} UnescapeSucceedsExactly(s: string)
    ensures PathUnescape(s).Some? <==> WellEscaped(s)
    decreases |s|
  {
    if s != "" {
      if s[0] == '%' && !EscapeAt(s, 0) {
      } else {
        UnescapeSucceedsExactly(s[Step(s)..]);
        WellEscapedTail(s);
      }
    }
  }

  ghost predicate HasSlashEscape(s: string) {
    exists k | 0 <= k < |s| :: SlashEscapeAt(s, k)
  }

  lemma SlashEscapeTail(s: string)
    requires s != "" && (s[0] == '%' ==> EscapeAt(s, 0))
    ensures HasSlashEscape(s) <==> SlashEscapeAt(s, 0) || HasSlashEscape(s[Step(s)..])
    ensures '/' in s <==> s[0] == '/' || '/' in s[Step(s)..]
  {
    var n, t := Step(s), s[Step(s)..];
    assert s == s[..n] + t;
    assert forall k | 0 < k < n :: !SlashEscapeAt(s, k) && s[k] != '/';
    if HasSlashEscape(s) && !SlashEscapeAt(s, 0) {
      var k :| 0 <= k < |s| && SlashEscapeAt(s, k);
      assert SlashEscapeAt(t, k - n);
    }
    if HasSlashEscape(t) {
      var k :| 0 <= k < |t| && SlashEscapeAt(t, k);
      assert SlashEscapeAt(s, k + n);
    }
  }

  lemma {:induction false} UnescapedSlash(s: string)
    requires PathUnescape(s).Some?
    ensures '/' in PathUnescape(s).value <==> '/' in s || HasSlashEscape(s)
    decreases |s|
  {
    if s != "" {
      var t := s[Step(s)..];
      UnescapedSlash(t);
      SlashEscapeTail(s);
      if s[0] == '%' {
        HexSlash(s[1], s[2]);
      }
    }
  }

  lemma HexSlash(hi: char, lo: char)
    requires IsHex(hi) && IsHex(lo)
    ensures (16 * HexValue(hi) + HexValue(lo)) as char == '/' <==> hi == '2' && (lo == 'F' || lo == 'f')
  {
  }

  /** The segment is decodable and one of its escapes is a slash. */
  ghost predicate HidesSlash(seg: string) {
    WellEscaped(seg) && HasSlashEscape(seg)
  }

  /** Decoding puts a slash into a segment exactly when the segment hides one. */
  lemma SlashAfterDecoding(seg: string)
    requires '/' !in seg
    ensures '/' in Decoded(seg) <==> HidesSlash(seg)
  {
    UnescapeSucceedsExactly(seg);
    if WellEscaped(seg) {
      UnescapedSlash(seg);
    }
  }

  /** Decoding leaves a segment alone exactly when it holds no percent sign or one
      that is not an escape. */
  lemma UntouchedByDecoding(seg: string)
    ensures Decoded(seg) == seg <==> '%' !in seg || !WellEscaped(seg)
  {
    UnescapeSucceedsExactly(seg);
    if '%' !in seg {
      NothingToDecode(seg);
    } else if WellEscaped(seg) {
      EscapesShrink(seg);
    }
  }

  lemma {:induction false} UnescapeShrinks(s: string)
    requires PathUnescape(s).Some?
    ensures |PathUnescape(s).value| <= |s|
    ensures |PathUnescape(s).value| == |s| ==> PathUnescape(s).value == s
  {
    if s != "" {
      UnescapeShrinks(if s[0] != '%' then s[1..] else s[3..]);
      assert s == [s[0]] + s[1..];
    }
  }

  lemma {:induction false} EscapesShrink(s: string)
    requires PathUnescape(s).Some? && '%' in s
    ensures |PathUnescape(s).value| < |s|
    decreases |s|
  {
    if s[0] == '%' {
      UnescapeShrinks(s[3..]);
    } else {
      assert s == [s[0]] + s[1..];
      EscapesShrink(s[1..]);
    }
  }

  // ---- what decoding yields ----

  /** The digit in either case. */
  predicate Denotes(c: char, v: nat) {
    v < 16 && (c == "0123456789abcdef"[v] || c == "0123456789ABCDEF"[v])
  }

  /** A character stands for itself, unless it is a percent sign; any of the first 256
      may be written as a percent sign and two hexadecimal digits. */
  ghost predicate Spells(piece: string, c: char) {
    || (c != '%' && piece == [c])
    || (|piece| == 3 && piece[0] == '%' && exists hi: nat, lo: nat ::
          Denotes(piece[1], hi) && Denotes(piece[2], lo) && c as int == 16 * hi + lo)
  }

  function Concat(pieces: seq<string>): string {
    if pieces == [] then "" else pieces[0] + Concat(pieces[1..])
  }

  lemma HexDigits(c: char, v: nat)
    ensures Denotes(c, v) <==> IsHex(c) && HexValue(c) == v
  {
  }

  lemma {:induction false} UnescapeSpells(s: string) returns (pieces: seq<string>)
    requires PathUnescape(s).Some?
    ensures s == Concat(pieces) && |pieces| == |PathUnescape(s).value|
    ensures forall i | 0 <= i < |pieces| :: Spells(pieces[i], PathUnescape(s).value[i])
  {
    if s == "" {
      return [];
    }
    var n := if s[0] == '%' then 3 else 1;
    var rest := UnescapeSpells(s[n..]);
    pieces := [s[..n]] + rest;
    if n == 3 {
      HexDigits(s[1], HexValue(s[1]));
      HexDigits(s[2], HexValue(s[2]));
    }
    assert Spells(s[..n], PathUnescape(s).value[0]);
    assert pieces[1..] == rest && s == s[..n] + s[n..];
  }

  lemma EscapeSpells(piece: string, c: char)
    requires Spells(piece, c) && piece != [c]
    ensures |piece| == 3 && piece[0] == '%' && IsHex(piece[1]) && IsHex(piece[2])
    ensures c as int == 16 * HexValue(piece[1]) + HexValue(piece[2])
  {
    var hi: nat, lo: nat :| Denotes(piece[1], hi) && Denotes(piece[2], lo) && c as int == 16 * hi + lo;
    HexDigits(piece[1], hi);
    HexDigits(piece[2], lo);
  }

  lemma SpelledFirst(piece: string, c: char, rest: string)
    requires Spells(piece, c) && PathUnescape(rest).Some?
    ensures PathUnescape(piece + rest) == Some([c] + PathUnescape(rest).value)
  {
    var s := piece + rest;
    assert s[|piece|..] == rest;
    if piece != [c] {
      EscapeSpells(piece, c);
      assert s[0] == '%' && s[1] == piece[1] && s[2] == piece[2];
    }
  }

  lemma {:induction false} SpelledUnescapes(pieces: seq<string>, d: string)
    requires |pieces| == |d| && forall i | 0 <= i < |d| :: Spells(pieces[i], d[i])
    ensures PathUnescape(Concat(pieces)) == Some(d)
  {
    if d != "" {
      SpelledUnescapes(pieces[1..], d[1..]);
      SpelledFirst(pieces[0], d[0], Concat(pieces[1..]));
      assert d == [d[0]] + d[1..];
    }
  }

  /** Text decodes to `d` exactly when it spells the characters of `d` one after the
      other. */
  lemma UnescapeExactly(s: string, d: string)
    ensures PathUnescape(s) == Some(d) <==>
            exists pieces: seq<string> ::
              |pieces| == |d| && (forall i | 0 <= i < |d| :: Spells(pieces[i], d[i])) && s == Concat(pieces)
  {
    if PathUnescape(s) == Some(d) {
      var pieces := UnescapeSpells(s);
    }
    if pieces: seq<string> :| |pieces| == |d| && (forall i | 0 <= i < |d| :: Spells(pieces[i], d[i])) && s == Concat(pieces) {
      SpelledUnescapes(pieces, d);
    }
  }
}
