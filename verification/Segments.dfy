/**
 Splitting a string at a separator and joining it again: what Go's
 `strings.Split`, `strings.Join` and `strings.HasPrefix` do, and the facts
 that turn a prefix test on strings into a prefix test on segments.
 */
module Segments {

  function Split(s: string, sep: char): (segs: seq<string>)
    ensures |segs| > 0
  {
    if s == "" then [""]
    else
      PushFront(s[0], Split(s[1..], sep), sep)
  }

  /** What one more character in front does to a segment list. */
  function PushFront(c: char, segs: seq<string>, sep: char): (r: seq<string>)
    requires |segs| > 0
    ensures |r| > 0
  {
    if c == sep then [""] + segs else [[c] + segs[0]] + segs[1..]
  }

  lemma PushFrontConcat(c: char, a: seq<string>, b: seq<string>, sep: char)
    requires |a| > 0
    ensures PushFront(c, a + b, sep) == PushFront(c, a, sep) + b
  {
  }

  function Join(segs: seq<string>, sep: char): string {
    if |segs| == 0 then ""
    else if |segs| == 1 then segs[0]
    else segs[0] + [sep] + Join(segs[1..], sep)
  }

  /** No segment contains the separator. */
  predicate SepFree(segs: seq<string>, sep: char) {
    forall seg | seg in segs :: sep !in seg
  }

  lemma {:induction false} SplitIsSepFree(s: string, sep: char)
    ensures SepFree(Split(s, sep), sep)
  {
    if s != "" {
      SplitIsSepFree(s[1..], sep);
    }
  }

  lemma JoinPushFront(c: char, segs: seq<string>, sep: char)
    requires |segs| > 0
    ensures Join(PushFront(c, segs, sep), sep) == [c] + Join(segs, sep)
  {
    var r := PushFront(c, segs, sep);
    if c == sep {
      assert r[1..] == segs;
    } else if |segs| > 1 {
      assert r[1..] == segs[1..];
      assert [c] + segs[0] + [sep] == [c] + (segs[0] + [sep]);
    }
  }

  /** Joining undoes splitting. */
  lemma {:induction false} JoinSplit(s: string, sep: char)
    ensures Join(Split(s, sep), sep) == s
  {
    if s != "" {
      JoinSplit(s[1..], sep);
      JoinPushFront(s[0], Split(s[1..], sep), sep);
    }
  }

  lemma {:induction false} SplitWithoutSep(s: string, sep: char)
    requires sep !in s
    ensures Split(s, sep) == [s]
  {
    if s != "" {
      SplitWithoutSep(s[1..], sep);
      assert s == [s[0]] + s[1..];
    }
  }

  lemma {:induction false} SplitConcat(a: string, b: string, sep: char)
    ensures Split(a + [sep] + b, sep) == Split(a, sep) + Split(b, sep)
  {
    if a == "" {
      SplitCons(sep, b, sep);
      assert a + [sep] + b == [sep] + b;
    } else {
      SplitConcat(a[1..], b, sep);
      SplitCons(a[0], a[1..] + [sep] + b, sep);
      SplitCons(a[0], a[1..], sep);
      PushFrontConcat(a[0], Split(a[1..], sep), Split(b, sep), sep);
      assert a == [a[0]] + a[1..];
      assert a + [sep] + b == [a[0]] + (a[1..] + [sep] + b);
    }
  }

  lemma SplitCons(c: char, s: string, sep: char)
    ensures Split([c] + s, sep) == PushFront(c, Split(s, sep), sep)
  {
    assert ([c] + s)[1..] == s;
  }

  lemma {:induction false} JoinConcat(a: seq<string>, b: seq<string>, sep: char)
    requires |a| > 0 && |b| > 0
    ensures Join(a + b, sep) == Join(a, sep) + [sep] + Join(b, sep)
  {
    if |a| == 1 {
      assert (a + b)[1..] == b;
    } else {
      JoinConcat(a[1..], b, sep);
      assert (a + b)[1..] == a[1..] + b;
    }
  }

  /** Splitting undoes joining exactly when no segment holds the separator. */
  lemma {:induction false} SplitJoin(segs: seq<string>, sep: char)
    requires |segs| > 0
    ensures Split(Join(segs, sep), sep) == segs <==> SepFree(segs, sep)
  {
    SplitIsSepFree(Join(segs, sep), sep);
    if SepFree(segs, sep) {
      SplitJoinFree(segs, sep);
    }
  }

  lemma {:induction false} SplitJoinFree(segs: seq<string>, sep: char)
    requires |segs| > 0 && SepFree(segs, sep)
    ensures Split(Join(segs, sep), sep) == segs
  {
    assert segs[0] in segs;
    SplitWithoutSep(segs[0], sep);
    if |segs| > 1 {
      SplitJoinFree(segs[1..], sep);
      SplitConcat(segs[0], Join(segs[1..], sep), sep);
      assert segs == [segs[0]] + segs[1..];
    }
  }

  /** Two strings with the same segments are the same string. */
  lemma SplitInjective(a: string, b: string, sep: char)
    requires Split(a, sep) == Split(b, sep)
    ensures a == b
  {
    JoinSplit(a, sep);
    JoinSplit(b, sep);
  }

  /** The string test "equal, or a prefix that is followed by the separator" is
      the prefix order on segment lists. */
  lemma PrefixIsSegmentPrefix(a: string, b: string, sep: char)
    ensures a + [sep] <= b <==> Split(a, sep) < Split(b, sep)
  {
    if a + [sep] <= b {
      var rest := b[|a| + 1..];
      assert b == a + [sep] + rest;
      SplitConcat(a, rest, sep);
    }
    if Split(a, sep) < Split(b, sep) {
      SegmentPrefixIsPrefix(a, b, sep);
    }
  }

  lemma SegmentPrefixIsPrefix(a: string, b: string, sep: char)
    requires Split(a, sep) < Split(b, sep)
    ensures a + [sep] <= b
  {
    var sa, sb := Split(a, sep), Split(b, sep);
    var tail := sb[|sa|..];
    assert sb == sa + tail;
    JoinConcat(sa, tail, sep);
    JoinSplit(a, sep);
    JoinSplit(b, sep);
  }

  /** All the segments of a list of strings that may themselves hold the separator. */
  function Pieces(parts: seq<string>, sep: char): (ps: seq<string>)
    ensures parts != [] ==> ps != []
  {
    if parts == [] then [] else Split(parts[0], sep) + Pieces(parts[1..], sep)
  }

  /** Splitting what was joined gives all the pieces. */
  lemma {:induction false} SplitJoined(parts: seq<string>, sep: char)
    requires parts != []
    ensures Split(Join(parts, sep), sep) == Pieces(parts, sep)
  {
    if |parts| == 1 {
      assert Pieces(parts, sep) == Split(parts[0], sep) + [];
    } else {
      SplitJoined(parts[1..], sep);
      SplitConcat(parts[0], Join(parts[1..], sep), sep);
    }
  }

  lemma {:induction false} PieceOf(parts: seq<string>, sep: char, piece: string)
    ensures piece in Pieces(parts, sep) <==> exists part | part in parts :: piece in Split(part, sep)
  {
    if parts != [] {
      var head, rest := parts[0], parts[1..];
      PieceOf(rest, sep, piece);
      assert piece in Pieces(parts, sep) <==> piece in Split(head, sep) || piece in Pieces(rest, sep);
      assert head in parts && forall part :: part in parts <==> part == head || part in rest;
    }
  }

  lemma {:induction false} PiecesOfFree(parts: seq<string>, sep: char)
    requires SepFree(parts, sep)
    ensures Pieces(parts, sep) == parts
  {
    if parts != [] {
      assert parts[0] in parts;
      SplitWithoutSep(parts[0], sep);
      PiecesOfFree(parts[1..], sep);
      assert parts == [parts[0]] + parts[1..];
    }
  }

  /** The last segment is what follows the last separator. */
  lemma {:induction false} SplitEnd(s: string, sep: char)
    requires s != ""
    ensures EndsLike(Split(s, sep)[|Split(s, sep)| - 1], s, sep)
  {
    var t := s[1..];
    var segs := Split(t, sep);
    PushFrontEnd(s[0], segs, sep);
    if t != "" {
      SplitEnd(t, sep);
      assert s[|s| - 1] == t[|t| - 1];
    } else {
      assert segs == [""];
    }
  }

  /** Empty behind a separator, else with the same last character. */
  predicate EndsLike(last: string, s: string, sep: char)
    requires s != ""
  {
    if s[|s| - 1] == sep then last == "" else last != "" && last[|last| - 1] == s[|s| - 1]
  }

  lemma PushFrontEnd(c: char, segs: seq<string>, sep: char)
    requires |segs| > 0
    ensures var r, last := PushFront(c, segs, sep), segs[|segs| - 1];
            r[|r| - 1] == if |segs| == 1 && c != sep then [c] + last else last
  {
  }

  lemma SplitEndsInSep(s: string, sep: char)
    ensures Split(s + [sep], sep) == Split(s, sep) + [""]
  {
    SplitConcat(s, "", sep);
    assert s + [sep] + "" == s + [sep];
  }

  lemma SharedFront(front: string, a: string, b: string)
    ensures front + a <= front + b <==> a <= b
  {
    if front + a <= front + b {
      assert b == (front + b)[|front|..];
      assert a == (front + a)[|front|..];
    }
  }
}
