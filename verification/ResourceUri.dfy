/**
 Resource URIs: the dot-segment normaliser.
 A Go string is a byte string; one character stands for one byte.
 */
module ResourceUri {
  import opened Wrappers
  import opened Segments
  import opened PercentEncoding

  // ---- scheme and path ----

  predicate SeparatorAt(s: string, i: int) {
    0 <= i <= |s| - 3 && s[i] == ':' && s[i + 1] == '/' && s[i + 2] == '/'
  }

  /** Position of the first `://`, or -1. */
  function IndexOfSeparator(s: string): (i: int)
    ensures i == -1 || SeparatorAt(s, i)
    ensures forall j | SeparatorAt(s, j) :: 0 <= i <= j
  {
    IndexFrom(s, 0)
  }

  function IndexFrom(s: string, from: nat): (i: int)
    requires from <= |s|
    ensures i == -1 || (i >= from && SeparatorAt(s, i))
    ensures forall j | from <= j && SeparatorAt(s, j) :: 0 <= i <= j
    decreases |s| - from
  {
    if SeparatorAt(s, from) then from
    else if from == |s| then -1
    else IndexFrom(s, from + 1)
  }

  /** Everything up to and including the first `://`; empty without one. */
  function SchemeOf(uri: string): string {
    var i := IndexOfSeparator(uri);
    if i < 0 then "" else uri[..i + 3]
  }

  function PathOf(uri: string): string {
    var i := IndexOfSeparator(uri);
    if i < 0 then uri else uri[i + 3..]
  }

  lemma SchemeAndPath(uri: string)
    ensures SchemeOf(uri) + PathOf(uri) == uri
  {
  }

  /** A scheme keeps being the scheme whatever path follows it. */
  lemma SchemeStays(uri: string, path: string)
    requires SchemeOf(uri) != ""
    ensures SchemeOf(SchemeOf(uri) + path) == SchemeOf(uri)
    ensures PathOf(SchemeOf(uri) + path) == path
  {
    var i := IndexOfSeparator(uri);
    var whole := SchemeOf(uri) + path;
    var k := IndexOfSeparator(whole);
    assert SeparatorAt(whole, i);
    assert SeparatorAt(uri, k);
  }

  // ---- normalisation ----

  /** The effect of one decoded segment on the parts kept so far. */
  function PushSegment(parts: seq<string>, d: string): seq<string> {
    if d == ".." then if |parts| > 0 then parts[..|parts| - 1] else parts
    else if d == "." || d == "" then parts
    else parts + [d]
  }

  function Resolve(segs: seq<string>): seq<string> {
    if segs == [] then [] else
      PushSegment(Resolve(segs[..|segs| - 1]), Decoded(segs[|segs| - 1]))
  }

  function Parts(uri: string): seq<string> {
    Resolve(Split(PathOf(uri), '/'))
  }

  function Normalize(uri: string): string {
    SchemeOf(uri) + Join(Parts(uri), '/')
  }

  lemma ResolveSnoc(segs: seq<string>, last: string)
    ensures Resolve(segs + [last]) == PushSegment(Resolve(segs), Decoded(last))
  {
    assert (segs + [last])[..|segs|] == segs;
  }

  method NormalizeResourceURI(uri: string) returns (r: string)
    ensures r == Normalize(uri)
  {
    var scheme, path := "", uri;
    var idx := IndexOfSeparator(uri);
    if idx >= 0 {
      scheme, path := uri[..idx + 3], uri[idx + 3..];
    }
    var segs := Split(path, '/');
    var parts := [];
    for k := 0 to |segs|
      invariant parts == Resolve(segs[..k])
    {
      assert segs[..k + 1][..k] == segs[..k];
      var decoded := Decoded(segs[k]);
      if decoded == ".." {
        if |parts| > 0 {
          parts := parts[..|parts| - 1];
        }
      } else if decoded != "." && decoded != "" {
        parts := parts + [decoded];
      }
    }
    assert segs[..|segs|] == segs;
    return scheme + Join(parts, '/');
  }

  // ---- what the kept parts are ----

  /** Neither empty nor a dot segment. */
  predicate Plain(seg: string) {
    seg != "" && seg != "." && seg != ".."
  }

  predicate AllPlain(segs: seq<string>) {
    forall seg | seg in segs :: Plain(seg)
  }

  lemma ResolveOne(seg: string)
    ensures Resolve([seg]) == PushSegment([], Decoded(seg))
  {
    assert [seg][..0] == [];
  }

  /** A URI that is a single segment. */
  lemma OneSegment(uri: string)
    requires '/' !in uri
    ensures Parts(uri) == PushSegment([], Decoded(uri)) && SchemeOf(uri) == ""
    ensures Normalize(uri) == Join(PushSegment([], Decoded(uri)), '/')
  {
    SplitWithoutSep(uri, '/');
    ResolveOne(uri);
  }

  /** No kept part is empty, `.` or `..`, even after percent-decoding. */
  lemma {:induction false} ResolveIsPlain(segs: seq<string>)
    ensures AllPlain(Resolve(segs))
  {
    if segs != [] {
      ResolveIsPlain(segs[..|segs| - 1]);
    }
  }

  /** Reference: read the segments from the right, counting the `..` still to be
      paid for; a name is kept when none is outstanding. */
  ghost function Survivors(segs: seq<string>, owed: nat): seq<string> {
    if segs == [] then [] else
      var init, d := segs[..|segs| - 1], Decoded(segs[|segs| - 1]);
      if d == ".." then Survivors(init, owed + 1)
      else if d == "." || d == "" then Survivors(init, owed)
      else if owed > 0 then Survivors(init, owed - 1)
      else Survivors(init, 0) + [d]
  }

  ghost function DropTail(parts: seq<string>, n: nat): seq<string> {
    if n >= |parts| then [] else parts[..|parts| - n]
  }

  lemma {:induction false} SurvivorsWhenOwed(segs: seq<string>, owed: nat)
    ensures Survivors(segs, owed) == DropTail(Resolve(segs), owed)
  {
    if segs != [] {
      var init, d := segs[..|segs| - 1], Decoded(segs[|segs| - 1]);
      var kept := Resolve(init);
      if d == ".." {
        SurvivorsWhenOwed(init, owed + 1);
      } else if d == "." || d == "" {
        SurvivorsWhenOwed(init, owed);
      } else if owed > 0 {
        SurvivorsWhenOwed(init, owed - 1);
        assert DropTail(kept + [d], owed) == DropTail(kept, owed - 1);
      } else {
        SurvivorsWhenOwed(init, 0);
        assert DropTail(kept, 0) == kept;
      }
    }
  }

  /** The left-to-right stack computes the right-to-left reference. */
  lemma PartsAreSurvivors(uri: string)
    ensures Parts(uri) == Survivors(Split(PathOf(uri), '/'), 0)
  {
    SurvivorsWhenOwed(Split(PathOf(uri), '/'), 0);
  }

  /** The text segments that are kept, as they stand before decoding. */
  function KeptSegments(segs: seq<string>): seq<string> {
    if segs == [] then [] else
      var kept, last := KeptSegments(segs[..|segs| - 1]), segs[|segs| - 1];
      var d := Decoded(last);
      if d == ".." then if |kept| > 0 then kept[..|kept| - 1] else kept
      else if d == "." || d == "" then kept
      else kept + [last]
  }

  function Kept(uri: string): seq<string> {
    KeptSegments(Split(PathOf(uri), '/'))
  }

  lemma {:induction false} KeptDecoded(segs: seq<string>)
    ensures |KeptSegments(segs)| == |Resolve(segs)|
    ensures forall i | 0 <= i < |Resolve(segs)| :: Resolve(segs)[i] == Decoded(KeptSegments(segs)[i])
    ensures forall seg | seg in KeptSegments(segs) :: seg in segs
  {
    if segs != [] {
      var init, last := segs[..|segs| - 1], segs[|segs| - 1];
      assert segs == init + [last];
      KeptDecoded(init);
      forall seg | seg in KeptSegments(segs) ensures seg in segs {
        assert seg in KeptSegments(init) || seg == last;
      }
    }
  }

  /** Decoding put no slash inside a kept part. */
  predicate SlashFree(uri: string) {
    SepFree(Parts(uri), '/')
  }

  /** On the text: no kept segment hides a slash. */
  lemma SlashFreeExactly(uri: string)
    ensures SlashFree(uri) <==> forall seg | seg in Kept(uri) :: !HidesSlash(seg)
  {
    var segs, kept, parts := Split(PathOf(uri), '/'), Kept(uri), Parts(uri);
    KeptDecoded(segs);
    SplitIsSepFree(PathOf(uri), '/');
    forall i | 0 <= i < |parts| ensures '/' in parts[i] <==> HidesSlash(kept[i]) {
      assert kept[i] in kept;
      SlashAfterDecoding(kept[i]);
    }
    if SlashFree(uri) {
      forall seg | seg in kept ensures !HidesSlash(seg) {
        var i :| 0 <= i < |kept| && kept[i] == seg;
        assert parts[i] in parts;
      }
    }
    if forall seg | seg in kept :: !HidesSlash(seg) {
      forall part | part in parts ensures '/' !in part {
        var i :| 0 <= i < |parts| && parts[i] == part;
        assert kept[i] in kept;
      }
    }
  }

  /** The kept parts can be read back off the normal form exactly when no kept
      segment of the text hides a slash. */
  lemma PartsReadable(uri: string)
    requires Parts(uri) != []
    ensures Split(Join(Parts(uri), '/'), '/') == Parts(uri) <==> forall seg | seg in Kept(uri) :: !HidesSlash(seg)
  {
    SplitJoin(Parts(uri), '/');
    SlashFreeExactly(uri);
  }

  /** An escaped slash is decoded into one, and then separates two segments. */
  lemma EscapedSlashSplits()
    ensures !SlashFree("a%2Fb")
    ensures Normalize("a%2Fb") == "a/b"
  {
    var uri := "a%2Fb";
    assert uri == "a" + "%" + "2F" + "b" && "a/b" == "a" + ['/'] + "b";
    UnescapeSucceeds("b");
    UnescapeEscape("a", "2F", "b");
    assert (16 * HexValue('2') + HexValue('F')) as char == '/';
    OneSegment(uri);
    assert "a/b" in Parts(uri) && '/' in "a/b";
  }

  predicate PercentFree(uri: string) {
    '%' !in uri
  }

  lemma {:induction false} ResolveKeepsOut(segs: seq<string>, c: char)
    requires forall seg | seg in segs :: c !in Decoded(seg)
    ensures SepFree(Resolve(segs), c)
  {
    if segs != [] {
      ResolveKeepsOut(segs[..|segs| - 1], c);
    }
  }

  lemma {:induction false} SplitKeepsOut(s: string, sep: char, c: char)
    requires c !in s
    ensures SepFree(Split(s, sep), c)
  {
    if s != "" {
      SplitKeepsOut(s[1..], sep, c);
    }
  }

  lemma PercentFreeParts(uri: string)
    requires PercentFree(uri)
    ensures SlashFree(uri) && SepFree(Parts(uri), '%')
    ensures forall seg | seg in Split(PathOf(uri), '/') :: Decoded(seg) == seg
  {
    var segs := Split(PathOf(uri), '/');
    SplitKeepsOut(PathOf(uri), '/', '%');
    SplitIsSepFree(PathOf(uri), '/');
    forall seg | seg in segs ensures Decoded(seg) == seg {
      NothingToDecode(seg);
    }
    ResolveKeepsOut(segs, '/');
    ResolveKeepsOut(segs, '%');
  }

  // ---- the normal form ----

  predicate DoubleSlashAt(s: string, i: int) {
    0 <= i <= |s| - 2 && s[i] == '/' && s[i + 1] == '/'
  }

  lemma {:induction false} JoinHasSingleSlashes(segs: seq<string>)
    requires SepFree(segs, '/') && forall seg | seg in segs :: seg != ""
    ensures forall i :: !DoubleSlashAt(Join(segs, '/'), i)
    ensures segs != [] ==> Join(segs, '/') != "" && Join(segs, '/')[0] != '/'
  {
    if segs != [] {
      assert segs[0] in segs;
      if |segs| > 1 {
        var j, rest, n := Join(segs, '/'), Join(segs[1..], '/'), |segs[0]|;
        assert forall seg | seg in segs[1..] :: seg in segs;
        JoinHasSingleSlashes(segs[1..]);
        assert forall i | n < i :: DoubleSlashAt(j, i) <==> DoubleSlashAt(rest, i - n - 1);
      }
    }
  }

  lemma JoinHasNoSeparator(segs: seq<string>)
    requires SepFree(segs, '/') && AllPlain(segs)
    ensures IndexOfSeparator(Join(segs, '/')) == -1
  {
    JoinHasSingleSlashes(segs);
    var j := Join(segs, '/');
    assert forall i | SeparatorAt(j, i) :: DoubleSlashAt(j, i + 1);
  }

  /** The normal form has the scheme of the URI and the joined parts as path. */
  lemma NormalFormShape(uri: string)
    requires SlashFree(uri)
    ensures SchemeOf(Normalize(uri)) == SchemeOf(uri)
    ensures PathOf(Normalize(uri)) == Join(Parts(uri), '/')
  {
    ResolveIsPlain(Split(PathOf(uri), '/'));
    if SchemeOf(uri) == "" {
      JoinHasNoSeparator(Parts(uri));
      assert Normalize(uri) == Join(Parts(uri), '/');
    } else {
      SchemeStays(uri, Join(Parts(uri), '/'));
    }
  }

  /** No segment is dropped and none holds an escape. */
  predicate IsNormalForm(uri: string) {
    PathOf(uri) == "" || AllFixed(Split(PathOf(uri), '/'))
  }

  predicate AllFixed(segs: seq<string>) {
    forall i | 0 <= i < |segs| :: Plain(segs[i]) && Decoded(segs[i]) == segs[i]
  }

  lemma {:induction false} ResolveFixed(segs: seq<string>)
    requires AllFixed(segs)
    ensures Resolve(segs) == segs
  {
    if segs != [] {
      var init, last := segs[..|segs| - 1], segs[|segs| - 1];
      assert segs == init + [last];
      assert Plain(segs[|init|]) && Decoded(segs[|init|]) == segs[|init|];
      assert AllFixed(init) by {
        assert forall i | 0 <= i < |init| :: init[i] == segs[i];
      }
      ResolveFixed(init);
      ResolveSnoc(init, last);
    }
  }

  function Weight(segs: seq<string>): nat {
    if segs == [] then 0 else Weight(segs[..|segs| - 1]) + |segs[|segs| - 1]| + 1
  }

  lemma WeightSnoc(segs: seq<string>, seg: string)
    ensures Weight(segs + [seg]) == Weight(segs) + |seg| + 1
  {
    assert (segs + [seg])[..|segs|] == segs;
  }

  lemma {:induction false} JoinWeight(segs: seq<string>, sep: char)
    requires segs != []
    ensures |Join(segs, sep)| + 1 == Weight(segs)
  {
    if |segs| > 1 {
      var head, rest := segs[0], segs[1..];
      JoinWeight(rest, sep);
      WeightConcat([head], rest);
      assert segs == [head] + rest;
    }
    WeightOne(segs[0]);
  }

  lemma WeightOne(seg: string)
    ensures Weight([seg]) == |seg| + 1
  {
    WeightSnoc([], seg);
    assert [] + [seg] == [seg];
  }

  lemma {:induction false} WeightConcat(a: seq<string>, b: seq<string>)
    ensures Weight(a + b) == Weight(a) + Weight(b)
  {
    if b == [] {
      assert a + b == a;
    } else {
      var init, last := b[..|b| - 1], b[|b| - 1];
      WeightConcat(a, init);
      WeightSnoc(a + init, last);
      assert a + b == (a + init) + [last];
    }
  }

  lemma PushShrinks(parts: seq<string>, seg: string)
    ensures var w := Weight(PushSegment(parts, Decoded(seg)));
            && w <= Weight(parts) + |seg| + 1
            && (w == Weight(parts) + |seg| + 1 ==> Plain(seg) && Decoded(seg) == seg)
  {
    if PathUnescape(seg).Some? {
      UnescapeShrinks(seg);
    }
    WeightSnoc(parts, Decoded(seg));
  }

  /** Normalising removes weight unless there is nothing to do. */
  lemma {:induction false} ResolveShrinks(segs: seq<string>)
    ensures Weight(Resolve(segs)) <= Weight(segs)
    ensures Weight(Resolve(segs)) == Weight(segs) ==> AllFixed(segs)
  {
    if segs != [] {
      var init, last := segs[..|segs| - 1], segs[|segs| - 1];
      assert segs == init + [last];
      ResolveShrinks(init);
      ResolveShrinksSnoc(init, last);
    }
  }

  lemma ResolveShrinksSnoc(init: seq<string>, last: string)
    requires Weight(Resolve(init)) <= Weight(init)
    requires Weight(Resolve(init)) == Weight(init) ==> AllFixed(init)
    ensures var segs := init + [last];
            && Weight(Resolve(segs)) <= Weight(segs)
            && (Weight(Resolve(segs)) == Weight(segs) ==> AllFixed(segs))
  {
    ResolveSnoc(init, last);
    WeightSnoc(init, last);
    PushShrinks(Resolve(init), last);
    if AllFixed(init) && Plain(last) && Decoded(last) == last {
      FixedSnoc(init, last);
    }
  }

  lemma FixedSnoc(init: seq<string>, last: string)
    requires AllFixed(init) && Plain(last) && Decoded(last) == last
    ensures AllFixed(init + [last])
  {
  }

  /** The normaliser leaves a URI alone exactly when it is in normal form. */
  lemma FixedPointIffNormalForm(uri: string)
    ensures Normalize(uri) == uri <==> IsNormalForm(uri)
  {
    var segs := Split(PathOf(uri), '/');
    SchemeAndPath(uri);
    JoinSplit(PathOf(uri), '/');
    if Normalize(uri) == uri {
      SharedFront(SchemeOf(uri), Join(Parts(uri), '/'), PathOf(uri));
      SharedFront(SchemeOf(uri), PathOf(uri), Join(Parts(uri), '/'));
      if Parts(uri) != [] {
        ResolveShrinks(segs);
        JoinWeight(Parts(uri), '/');
        JoinWeight(segs, '/');
      }
    }
    if IsNormalForm(uri) {
      if PathOf(uri) == "" {
        SplitWithoutSep("", '/');
        NothingToDecode("");
        ResolveOne("");
      } else {
        ResolveFixed(segs);
      }
    }
  }

  // ---- the segments of the normal form ----

  /** A segment that ends in a colon, and then an empty one: a scheme ends here. */
  predicate BreakAt(ps: seq<string>, j: int) {
    0 <= j && j + 2 < |ps| && ps[j] != "" && ps[j][|ps[j]| - 1] == ':' && ps[j + 1] == ""
  }

  /** The first place where a scheme ends, or -1. */
  function FirstBreak(ps: seq<string>): (j: int)
    ensures j == -1 || BreakAt(ps, j)
    ensures forall k | BreakAt(ps, k) :: 0 <= j <= k
  {
    BreakFrom(ps, 0)
  }

  function BreakFrom(ps: seq<string>, from: nat): (j: int)
    requires from <= |ps|
    ensures j == -1 || (j >= from && BreakAt(ps, j))
    ensures forall k | from <= k && BreakAt(ps, k) :: 0 <= j <= k
    decreases |ps| - from
  {
    if BreakAt(ps, from) then from
    else if from == |ps| then -1
    else BreakFrom(ps, from + 1)
  }

  lemma BreakIsSeparator(s: string, j: int)
    requires BreakAt(Split(s, '/'), j)
    ensures var ps := Split(s, '/');
            var left := Join(ps[..j + 1], '/');
            && left != "" && s == left + "//" + Join(ps[j + 2..], '/')
            && SeparatorAt(s, |left| - 1)
  {
    var ps := Split(s, '/');
    var front, rest := ps[..j + 1], ps[j + 2..];
    JoinSplit(s, '/');
    assert ps == front + ([""] + rest);
    JoinAroundEmpty(front, rest);
    JoinEnds(front, '/');
    var left := Join(front, '/');
    assert s == left + "//" + Join(rest, '/');
    assert s[|left| - 1] == left[|left| - 1] == ':';
  }

  lemma JoinAroundEmpty(front: seq<string>, rest: seq<string>)
    requires front != [] && rest != []
    ensures Join(front + ([""] + rest), '/') == Join(front, '/') + "//" + Join(rest, '/')
  {
    JoinConcat(front, [""] + rest, '/');
    JoinConcat([""], rest, '/');
    var a, b := Join(front, '/'), Join(rest, '/');
    assert a + ['/'] + ("" + ['/'] + b) == a + "//" + b;
  }

  lemma {:induction false} JoinEnds(segs: seq<string>, sep: char)
    requires segs != [] && segs[|segs| - 1] != ""
    ensures var j, last := Join(segs, sep), segs[|segs| - 1];
            j != "" && j[|j| - 1] == last[|last| - 1]
  {
    if |segs| > 1 {
      JoinEnds(segs[1..], sep);
    }
  }

  lemma SeparatorIsBreak(s: string, i: int)
    requires SeparatorAt(s, i)
    ensures var left := Split(s[..i + 1], '/');
            var j := |left| - 1;
            && BreakAt(Split(s, '/'), j)
            && Split(s, '/')[..j + 1] == left
            && Split(s, '/')[j + 2..] == Split(s[i + 3..], '/')
  {
    var front, tail := s[..i + 1], s[i + 3..];
    assert s == front + "/" + ("" + "/" + tail);
    SplitConcat(front, "" + "/" + tail, '/');
    SplitConcat("", tail, '/');
    SplitEnd(front, '/');
    assert Split("", '/') == [""];
  }

  lemma PrefixJoinShorter(ps: seq<string>, j: nat, k: nat)
    requires j < k < |ps|
    ensures |Join(ps[..j + 1], '/')| < |Join(ps[..k + 1], '/')|
  {
    assert ps[..k + 1] == ps[..j + 1] + ps[j + 1..k + 1];
    JoinConcat(ps[..j + 1], ps[j + 1..k + 1], '/');
  }

  /** Scheme and path of any string, in terms of its segments. */
  lemma SchemeBySegments(s: string)
    ensures var ps, j := Split(s, '/'), FirstBreak(Split(s, '/'));
            if j < 0 then SchemeOf(s) == "" && PathOf(s) == s
            else SchemeOf(s) == Join(ps[..j + 1], '/') + "//" && Split(PathOf(s), '/') == ps[j + 2..]
  {
    var i, j := IndexOfSeparator(s), FirstBreak(Split(s, '/'));
    if i < 0 {
      if j >= 0 {
        BreakIsSeparator(s, j);
      }
    } else {
      BreakAtSeparator(s, i, j);
    }
  }

  lemma BreakAtSeparator(s: string, i: nat, j: int)
    requires i == IndexOfSeparator(s) && j == FirstBreak(Split(s, '/'))
    ensures j >= 0 && SchemeOf(s) == Join(Split(s, '/')[..j + 1], '/') + "//"
    ensures Split(PathOf(s), '/') == Split(s, '/')[j + 2..]
  {
    var left := s[..i + 1];
    assert SchemeOf(s) == left + "//" by {
      assert SchemeOf(s) == s[..i + 3] && SeparatorAt(s, i);
    }
    assert PathOf(s) == s[i + 3..];
    FirstBreakIs(s, i, |Split(left, '/')| - 1);
    assert Split(s, '/')[..j + 1] == Split(left, '/') && Split(s, '/')[j + 2..] == Split(s[i + 3..], '/') by {
      SeparatorIsBreak(s, i);
    }
    assert Join(Split(left, '/'), '/') == left by {
      JoinSplit(left, '/');
    }
  }

  lemma FirstBreakIs(s: string, i: nat, k: nat)
    requires i == IndexOfSeparator(s) && k == |Split(s[..i + 1], '/')| - 1
    ensures FirstBreak(Split(s, '/')) == k
  {
    var ps, j := Split(s, '/'), FirstBreak(Split(s, '/'));
    SeparatorIsBreak(s, i);
    if j < k {
      JoinSplit(s[..i + 1], '/');
      BreakIsSeparator(s, j);
      PrefixJoinShorter(ps, j, k);
      assert false;
    }
  }

  /** The path segments of the normal form: all pieces of the kept parts. When
      decoding has made a scheme out of a URI that had none, only the pieces behind
      it. */
  function NormalSegments(uri: string): seq<string> {
    var ps := if Parts(uri) == [] then [""] else Pieces(Parts(uri), '/');
    if SchemeOf(uri) != "" || FirstBreak(ps) < 0 then ps else ps[FirstBreak(ps) + 2..]
  }

  /** Decoding makes a scheme out of a URI that had none. */
  predicate GainsScheme(uri: string) {
    SchemeOf(uri) == "" && FirstBreak(Pieces(Parts(uri), '/')) >= 0
  }

  /** Scheme and path segments of the normal form, for every URI. */
  lemma NormalFormBySegments(uri: string)
    ensures Split(PathOf(Normalize(uri)), '/') == NormalSegments(uri)
    ensures SchemeOf(Normalize(uri)) == SchemeOf(uri) <==> !GainsScheme(uri)
  {
    var body := Join(Parts(uri), '/');
    if Parts(uri) != [] {
      SplitJoined(Parts(uri), '/');
    } else {
      assert Split("", '/') == [""];
    }
    if SchemeOf(uri) != "" {
      SchemeStays(uri, body);
    } else {
      assert Normalize(uri) == body;
      SchemeBySegments(body);
    }
  }

  // ---- normalising twice ----

  /** Nothing is left to normalise. */
  predicate Settled(ps: seq<string>) {
    ps == [""] || AllFixed(ps)
  }

  lemma NormalFormIsSettled(uri: string)
    ensures IsNormalForm(uri) <==> Settled(Split(PathOf(uri), '/'))
  {
    if Split(PathOf(uri), '/') == [""] {
      JoinSplit(PathOf(uri), '/');
    }
    assert Split("", '/') == [""];
  }

  /** For every URI: normalising twice is normalising once exactly when the segments
      the kept parts fall into hold nothing to drop and nothing to decode. */
  lemma NormalizeIdempotent(uri: string)
    ensures Normalize(Normalize(uri)) == Normalize(uri) <==> Settled(NormalSegments(uri))
  {
    NormalFormBySegments(uri);
    NormalFormIsSettled(Normalize(uri));
    FixedPointIffNormalForm(Normalize(uri));
  }

  /** Part by part, for every URI that has a scheme or does not gain one. */
  lemma IdempotentByParts(uri: string)
    requires !GainsScheme(uri)
    ensures Normalize(Normalize(uri)) == Normalize(uri) <==>
            forall part | part in Parts(uri) :: AllFixed(Split(part, '/'))
  {
    var parts := Parts(uri);
    NormalizeIdempotent(uri);
    if parts != [] {
      FixedByParts(parts);
      NotAllEmpty(uri);
    }
  }

  lemma FixedByParts(parts: seq<string>)
    ensures AllFixed(Pieces(parts, '/')) <==> forall part | part in parts :: AllFixed(Split(part, '/'))
  {
    var ps := Pieces(parts, '/');
    if AllFixed(ps) {
      forall part, i | part in parts && 0 <= i < |Split(part, '/')|
        ensures Plain(Split(part, '/')[i]) && Decoded(Split(part, '/')[i]) == Split(part, '/')[i]
      {
        var piece := Split(part, '/')[i];
        PieceOf(parts, '/', piece);
        var k :| 0 <= k < |ps| && ps[k] == piece;
      }
    }
    if forall part | part in parts :: AllFixed(Split(part, '/')) {
      forall i | 0 <= i < |ps| ensures Plain(ps[i]) && Decoded(ps[i]) == ps[i] {
        PieceOf(parts, '/', ps[i]);
        var part :| part in parts && ps[i] in Split(part, '/');
        var k :| 0 <= k < |Split(part, '/')| && Split(part, '/')[k] == ps[i];
      }
    }
  }

  lemma NotAllEmpty(uri: string)
    requires Parts(uri) != []
    ensures Pieces(Parts(uri), '/') != [""]
  {
    var parts := Parts(uri);
    ResolveIsPlain(Split(PathOf(uri), '/'));
    SplitJoined(parts, '/');
    JoinSplit(Join(parts, '/'), '/');
    assert parts[0] in parts;
  }

  /** When no kept segment hides a slash, idempotence only depends on whether a second
      decoding would change any of them. */
  lemma IdempotentWithoutSlashes(uri: string)
    requires SlashFree(uri)
    ensures Normalize(Normalize(uri)) == Normalize(uri) <==>
            forall seg | seg in Kept(uri) :: Decoded(Decoded(seg)) == Decoded(seg)
  {
    var parts := Parts(uri);
    ResolveIsPlain(Split(PathOf(uri), '/'));
    NormalFormShape(uri);
    NormalFormBySegments(uri);
    IdempotentByParts(uri);
    forall part | part in parts ensures AllFixed(Split(part, '/')) <==> Decoded(part) == part {
      FixedAlone(part);
    }
    PartsAndKept(uri);
  }

  lemma FixedAlone(part: string)
    requires '/' !in part && Plain(part)
    ensures AllFixed(Split(part, '/')) <==> Decoded(part) == part
  {
    SplitWithoutSep(part, '/');
    assert AllFixed([part]) <==> Plain([part][0]) && Decoded([part][0]) == [part][0];
  }

  lemma PartsAndKept(uri: string)
    ensures (forall part | part in Parts(uri) :: Decoded(part) == part) <==>
            (forall seg | seg in Kept(uri) :: Decoded(Decoded(seg)) == Decoded(seg))
  {
    var parts, kept := Parts(uri), Kept(uri);
    KeptDecoded(Split(PathOf(uri), '/'));
    if forall seg | seg in kept :: Decoded(Decoded(seg)) == Decoded(seg) {
      forall part | part in parts ensures Decoded(part) == part {
        var i :| 0 <= i < |parts| && parts[i] == part;
        assert kept[i] in kept;
      }
    }
    if forall part | part in parts :: Decoded(part) == part {
      forall seg | seg in kept ensures Decoded(Decoded(seg)) == Decoded(seg) {
        var i :| 0 <= i < |kept| && kept[i] == seg;
        assert parts[i] in parts;
      }
    }
  }

  /** In particular on every percent-free URI. */
  lemma IdempotentWithoutPercent(uri: string)
    requires PercentFree(uri)
    ensures Normalize(Normalize(uri)) == Normalize(uri)
  {
    PercentFreeParts(uri);
    KeptDecoded(Split(PathOf(uri), '/'));
    IdempotentWithoutSlashes(uri);
  }

  /** A percent sign that starts no escape does no harm. */
  lemma LonePercentStays()
    ensures Normalize("100%25") == "100%" && Normalize("100%") == "100%"
  {
    var u, v := "100%25", "100%";
    assert u == "100" + "%" + "25" + "" && v == "100" + ['%'] + "";
    UnescapeEscape("100", "25", "");
    assert (16 * HexValue('2') + HexValue('5')) as char == '%';
    assert Decoded(u) == v;
    UnescapeSucceedsExactly(v);
    assert v[3] == '%' && !EscapeAt(v, 3);
    OneSegment(u);
    OneSegment(v);
  }

  // ---- dot segments of the normal form ----

  /** For every URI, the normal form is free of empty and dot segments exactly when the
      pieces of the kept parts are, behind the scheme that decoding may have made. For
      a URI that does not gain a scheme that is to say: when every kept part, split at
      the slashes that decoding has put into it, is. */
  lemma NormalFormIsPlain(uri: string)
    ensures AllPlain(Split(PathOf(Normalize(uri)), '/')) <==> AllPlain(NormalSegments(uri))
    ensures !GainsScheme(uri) && Parts(uri) != [] ==>
              (AllPlain(Split(PathOf(Normalize(uri)), '/')) <==>
               forall part | part in Parts(uri) :: AllPlain(Split(part, '/')))
  {
    var parts := Parts(uri);
    NormalFormBySegments(uri);
    var ps := Pieces(parts, '/');
    if AllPlain(ps) {
      forall part, piece | part in parts && piece in Split(part, '/') ensures Plain(piece) {
        PieceOf(parts, '/', piece);
      }
    }
    if forall part | part in parts :: AllPlain(Split(part, '/')) {
      forall piece | piece in ps ensures Plain(piece) {
        PieceOf(parts, '/', piece);
      }
    }
  }

  /** Escaped slashes around two dots leave a parent segment in the normal form. */
  lemma EscapedDotsStay(front: string, x: string, y: string)
    requires SchemeOf(front) == front != ""
    requires '%' !in x && '/' !in x && '%' !in y && '/' !in y
    ensures Normalize(front + (x + "%2F..%2F" + y)) == front + (x + "/../" + y)
  {
    var path, d := x + "%2F..%2F" + y, x + "/../" + y;
    SchemeStays(front, path);
    DecodedDots(x, y);
    SplitWithoutSep(path, '/');
    ResolveOne(path);
    assert |d| > 2;
    assert Parts(front + path) == [d];
  }

  lemma DecodedDots(x: string, y: string)
    requires '%' !in x && '%' !in y
    ensures Decoded(x + "%2F..%2F" + y) == x + "/../" + y
  {
    var tail := "..%2F" + y;
    assert tail == ".." + "%" + "2F" + y && x + "%2F..%2F" + y == x + "%" + "2F" + tail;
    UnescapeSucceeds(y);
    UnescapeEscape("..", "2F", y);
    UnescapeEscape(x, "2F", tail);
    assert (16 * HexValue('2') + HexValue('F')) as char == '/';
    assert x + ['/'] + (".." + ['/'] + y) == x + "/../" + y;
  }

  /** A doubly escaped dot is not in normal form after one pass. */
  lemma DoubleEscapeNeedsTwoPasses()
    ensures Normalize("%252e") == "%2e" && Normalize("%2e") == ""
  {
    var u, v := "%252e", "%2e";
    assert u == "" + "%" + "25" + "2e" && v == "" + ['%'] + "2e" && v == "" + "%" + "2e" + "";
    UnescapeSucceeds("2e");
    UnescapeEscape("", "25", "2e");
    UnescapeEscape("", "2e", "");
    assert (16 * HexValue('2') + HexValue('5')) as char == '%';
    assert (16 * HexValue('2') + HexValue('e')) as char == '.';
    OneSegment(u);
    OneSegment(v);
  }
}
