/** Allowlist patterns for resource URIs, and what a pattern covers. */
module ResourcePatterns {
  import opened Segments
  import opened PercentEncoding
  import opened ResourceUri

  predicate IsPrefixPattern(p: string) {
    |p| > 1 && p[|p| - 1] == '*' && p[|p| - 2] == '/'
  }

  function WithSlash(s: string): string {
    if |s| > 0 && s[|s| - 1] == '/' then s else s + "/"
  }

  predicate PatternCovers(p: string, uri: string) {
    || p == "*"
    || p == uri
    || p == Normalize(uri)
    || (IsPrefixPattern(p) && WithSlash(Normalize(p[..|p| - 1])) <= Normalize(uri))
  }

  predicate ResourceCovered(uri: string, patterns: seq<string>) {
    exists p | p in patterns :: PatternCovers(p, uri)
  }

  /** The normal segments in front of the final star of a prefix pattern. */
  function PatternParts(p: string): seq<string>
    requires IsPrefixPattern(p)
  {
    Parts(p[..|p| - 1])
  }

  lemma SameSeparator(stem: string, p: string)
    requires p == stem + "*"
    ensures IndexOfSeparator(p) == IndexOfSeparator(stem)
  {
    assert forall i :: SeparatorAt(p, i) <==> SeparatorAt(stem, i);
    var i, k := IndexOfSeparator(p), IndexOfSeparator(stem);
    assert i >= 0 ==> SeparatorAt(stem, i);
    assert k >= 0 ==> SeparatorAt(p, k);
  }

  lemma StarAfter(stem: string)
    ensures SchemeOf(stem + "*") == SchemeOf(stem)
    ensures PathOf(stem + "*") == PathOf(stem) + "*"
  {
    SameSeparator(stem, stem + "*");
  }

  /** Under a directory path, a further segment is pushed on top. */
  lemma ResolveUnder(dirPath: string, last: string)
    requires dirPath == "" || dirPath[|dirPath| - 1] == '/'
    requires '/' !in last && '%' !in last
    ensures Resolve(Split(dirPath + last, '/')) == PushSegment(Resolve(Split(dirPath, '/')), last)
  {
    NothingToDecode(last);
    if dirPath == "" {
      NothingToDecode("");
      SplitWithoutSep(last, '/');
      SplitWithoutSep("", '/');
      ResolveOne("");
      ResolveOne(last);
      assert dirPath + last == last;
    } else {
      var dir := dirPath[..|dirPath| - 1];
      ResolveInDirectory(dir, last);
      ResolveInDirectory(dir, "");
      EndsInSlash(dirPath);
      assert dir + "/" + "" == dir + "/";
    }
  }

  lemma EndsInSlash(s: string)
    requires s != "" && s[|s| - 1] == '/'
    ensures s == s[..|s| - 1] + "/"
  {
  }

  lemma ResolveInDirectory(dir: string, last: string)
    requires '/' !in last && '%' !in last
    ensures Resolve(Split(dir + "/" + last, '/')) == PushSegment(Resolve(Split(dir, '/')), last)
  {
    NothingToDecode(last);
    SplitWithoutSep(last, '/');
    SplitConcat(dir, last, '/');
    ResolveSnoc(Split(dir, '/'), last);
  }

  /** Reading the pattern as a URI adds exactly the segment `*`. */
  lemma PatternAsUri(p: string)
    requires IsPrefixPattern(p)
    ensures SchemeOf(p) == SchemeOf(p[..|p| - 1])
    ensures Parts(p) == PatternParts(p) + ["*"]
  {
    var stem := p[..|p| - 1];
    assert p == stem + "*";
    SameSeparator(stem, p);
    StarAfter(stem);
    NothingToDecode("*");
    ResolveUnder(PathOf(stem), "*");
  }

  // ---- what the pattern test amounts to ----

  /** The segments a prefix pattern stands for: the pieces of its normal form, without
      the empty one that a final slash leaves. */
  function PatternSegments(p: string): seq<string>
    requires IsPrefixPattern(p)
  {
    var ps := Pieces(PatternParts(p), '/');
    if ps != [] && ps[|ps| - 1] == "" then ps[..|ps| - 1] else ps
  }

  function WithoutSlash(s: string): string {
    if |s| > 0 && s[|s| - 1] == '/' then s[..|s| - 1] else s
  }

  lemma WithSlashEnds(s: string)
    ensures WithSlash(s) == WithoutSlash(s) + "/"
  {
  }

  /** Every prefix pattern, every URI: the string test is the strict prefix order on
      the slash-separated segments of the two normal forms, schemes included. */
  lemma PrefixPatternBySegments(p: string, uri: string)
    requires IsPrefixPattern(p)
    ensures PatternCovers(p, uri) <==>
            || p == uri || p == Normalize(uri)
            || Split(WithoutSlash(Normalize(p[..|p| - 1])), '/') < Split(Normalize(uri), '/')
  {
    var norm := Normalize(p[..|p| - 1]);
    WithSlashEnds(norm);
    PrefixIsSegmentPrefix(WithoutSlash(norm), Normalize(uri), '/');
  }

  /** Every literal pattern, every URI: it covers the URI itself and the URIs whose
      normal form has its scheme and its segments, and no others; a longer last segment
      will not do. */
  lemma LiteralPatternCovers(p: string, uri: string)
    requires p != "*" && !IsPrefixPattern(p)
    ensures PatternCovers(p, uri) <==>
            p == uri || (SchemeOf(p) == SchemeOf(Normalize(uri)) && Split(PathOf(p), '/') == NormalSegments(uri))
  {
    var norm := Normalize(uri);
    NormalFormBySegments(uri);
    SchemeAndPath(p);
    SchemeAndPath(norm);
    if Split(PathOf(p), '/') == Split(PathOf(norm), '/') {
      SplitInjective(PathOf(p), PathOf(norm), '/');
    }
  }

  /** What a pattern other than the wildcard grants, in segments: the URI itself, its
      normal form segment by segment, or everything below a directory. */
  ghost predicate Grants(p: string, uri: string) {
    || p == uri
    || Split(p, '/') == Split(Normalize(uri), '/')
    || (IsPrefixPattern(p) && Split(WithoutSlash(Normalize(p[..|p| - 1])), '/') < Split(Normalize(uri), '/'))
  }

  lemma CoversExactly(p: string, uri: string)
    ensures PatternCovers(p, uri) <==> p == "*" || Grants(p, uri)
  {
    if Split(p, '/') == Split(Normalize(uri), '/') {
      SplitInjective(p, Normalize(uri), '/');
    }
    if IsPrefixPattern(p) {
      PrefixPatternBySegments(p, uri);
    }
  }

  /** A list covers a URI exactly when it holds the wildcard or a pattern that grants it. */
  lemma CoveredExactly(uri: string, list: seq<string>)
    ensures ResourceCovered(uri, list) <==> "*" in list || exists p | p in list :: Grants(p, uri)
  {
    forall p | p in list ensures PatternCovers(p, uri) <==> p == "*" || Grants(p, uri) {
      CoversExactly(p, uri);
    }
    if "*" in list {
      assert PatternCovers("*", uri);
    }
  }

  /** Every prefix pattern with a scheme (say `mcp://tools/` and a star), every URI:
      apart from literal equality it is covered exactly when the schemes of the normal
      forms are equal and the pattern's segments are a strict prefix of those of the
      normal form; with no segment left a pattern covers its whole scheme. */
  lemma PrefixPatternCovers(p: string, uri: string)
    requires IsPrefixPattern(p) && SchemeOf(p) != ""
    ensures PatternCovers(p, uri) <==>
            || p == uri || p == Normalize(uri)
            || (SchemeOf(p) == SchemeOf(Normalize(uri))
                && (PatternParts(p) == [] || PatternSegments(p) < NormalSegments(uri)))
  {
    var stem := p[..|p| - 1];
    PatternAsUri(p);
    NormalFormBySegments(uri);
    StemTest(p, stem, Normalize(uri));
  }

  /** The test against any string. */
  lemma StemTest(p: string, stem: string, norm: string)
    requires IsPrefixPattern(p) && stem == p[..|p| - 1] && SchemeOf(stem) != ""
    ensures WithSlash(Normalize(stem)) <= norm <==>
            SchemeOf(stem) == SchemeOf(norm)
            && (PatternParts(p) == [] || PatternSegments(p) < Split(PathOf(norm), '/'))
  {
    var scheme, body := SchemeOf(stem), Join(Parts(stem), '/');
    SchemeTest(stem, norm);
    assert scheme[|scheme| - 1] == '/';
    if Parts(stem) == [] {
      assert Normalize(stem) == scheme;
    } else {
      BodySegments(p, stem);
      BodyTest(scheme, body, norm);
    }
  }

  lemma BodyTest(scheme: string, body: string, norm: string)
    requires body != "" && (scheme <= norm <==> scheme == SchemeOf(norm))
    ensures WithSlash(scheme + body) <= norm <==>
            scheme == SchemeOf(norm) && Split(WithoutSlash(body), '/') < Split(PathOf(norm), '/')
  {
    WithSlashBehind(scheme, body);
    WithSlashEnds(body);
    FrontTest(scheme, WithSlash(body), norm);
    PrefixIsSegmentPrefix(WithoutSlash(body), PathOf(norm), '/');
  }

  lemma WithSlashBehind(scheme: string, body: string)
    requires body != ""
    ensures WithSlash(scheme + body) == scheme + WithSlash(body)
  {
    assert (scheme + body)[|scheme + body| - 1] == body[|body| - 1];
    assert scheme + body + "/" == scheme + (body + "/");
  }

  lemma BodySegments(p: string, stem: string)
    requires IsPrefixPattern(p) && stem == p[..|p| - 1] && Parts(stem) != []
    ensures var body := Join(Parts(stem), '/');
            body != "" && Split(WithoutSlash(body), '/') == PatternSegments(p)
  {
    var parts, body := Parts(stem), Join(Parts(stem), '/');
    SplitJoined(parts, '/');
    NotAllEmpty(stem);
    assert body == "" ==> Split(body, '/') == [""];
    SplitEnd(body, '/');
    if body[|body| - 1] == '/' {
      SplitEndsInSep(WithoutSlash(body), '/');
      assert body == WithoutSlash(body) + "/";
    }
  }

  lemma SchemeTest(stem: string, norm: string)
    requires SchemeOf(stem) != ""
    ensures SchemeOf(stem) <= norm <==> SchemeOf(stem) == SchemeOf(norm)
  {
    var scheme := SchemeOf(stem);
    SchemeAndPath(norm);
    if scheme <= norm {
      var rest := norm[|scheme|..];
      assert norm == scheme + rest;
      SchemeStays(stem, rest);
    } else {
      assert SchemeOf(norm) <= norm by {
        assert SchemeOf(norm) + PathOf(norm) == norm;
      }
    }
  }

  lemma FrontTest(scheme: string, front: string, norm: string)
    requires scheme <= norm ==> scheme == SchemeOf(norm)
    ensures scheme + front <= norm <==> scheme <= norm && front <= PathOf(norm)
  {
    SchemeAndPath(norm);
    if scheme + front <= norm {
      assert scheme == (scheme + front)[..|scheme|] <= norm;
    }
    if scheme <= norm {
      SharedFront(scheme, front, PathOf(norm));
    }
  }

  lemma PatternSegmentsOfPlain(p: string)
    requires IsPrefixPattern(p) && PercentFree(p)
    ensures PatternSegments(p) == PatternParts(p)
  {
    var stem := p[..|p| - 1];
    PercentFreeParts(stem);
    ResolveIsPlain(Split(PathOf(stem), '/'));
    PiecesOfFree(Parts(stem), '/');
    if Parts(stem) != [] {
      assert Parts(stem)[|Parts(stem)| - 1] in Parts(stem);
    }
  }

  /** Without escapes in the pattern and without hidden slashes in the URI, the kept
      segments themselves are compared, and literal equality adds nothing. */
  lemma PlainPatternCovers(p: string, uri: string)
    requires IsPrefixPattern(p) && PercentFree(p) && SchemeOf(p) != ""
    requires SlashFree(uri)
    ensures PatternCovers(p, uri) <==>
            SchemeOf(p) == SchemeOf(uri) && (PatternParts(p) == [] || PatternParts(p) < Parts(uri))
  {
    PrefixPatternCovers(p, uri);
    PatternSegmentsOfPlain(p);
    PatternAsUri(p);
    NormalFormShape(uri);
    PiecesOfFree(Parts(uri), '/');
    if p == Normalize(uri) {
      NormalPatternParts(p, uri);
    }
  }

  /** A pattern that is literally the normal form of the URI. */
  lemma NormalPatternParts(p: string, uri: string)
    requires IsPrefixPattern(p) && PercentFree(p) && SchemeOf(p) != ""
    requires SlashFree(uri) && p == Normalize(uri)
    ensures SchemeOf(p) == SchemeOf(uri) && PatternParts(p) < Parts(uri)
  {
    NormalFormShape(uri);
    PatternAsUri(p);
    PercentFreeParts(p);
    var parts := Parts(uri);
    ResolveIsPlain(Split(PathOf(uri), '/'));
    SchemeAndPath(p);
    assert p != SchemeOf(p);
    SplitJoinFree(parts, '/');
    ResolveFixed(parts);
  }

  /** A pattern covers a URI whose escaped slashes lead out of it again, but not the
      same URI with the slashes written out. */
  lemma EscapedDotsCovered(front: string, x: string, y: string)
    requires SchemeOf(front) == front != "" && Plain(x)
    requires '%' !in front && '%' !in x && '/' !in x && '%' !in y && '/' !in y
    ensures PatternCovers(front + (x + "/*"), front + (x + "%2F..%2F" + y))
    ensures !PatternCovers(front + (x + "/*"), front + (x + "/../" + y))
  {
    CoversEscaped(front, x, y);
    CoversNotWritten(front, x, y);
  }

  lemma Starred(stem: string, uri: string)
    requires stem != "" && stem[|stem| - 1] == '/'
    ensures IsPrefixPattern(stem + "*") && (stem + "*")[..|stem + "*"| - 1] == stem
    ensures WithSlash(Normalize(stem)) <= Normalize(uri) ==> PatternCovers(stem + "*", uri)
  {
    assert (stem + "*")[..|stem + "*"| - 1] == stem;
  }

  lemma CoversEscaped(front: string, x: string, y: string)
    requires SchemeOf(front) == front != "" && Plain(x)
    requires '%' !in x && '/' !in x && '%' !in y && '/' !in y
    ensures PatternCovers(front + (x + "/*"), front + (x + "%2F..%2F" + y))
  {
    var stem, uri := front + (x + "/"), front + (x + "%2F..%2F" + y);
    EscapedDotsStay(front, x, y);
    StemOfOne(front, x);
    Shapes(front, x, y);
    Starred(stem, uri);
  }

  lemma CoversNotWritten(front: string, x: string, y: string)
    requires SchemeOf(front) == front != "" && Plain(x)
    requires '%' !in front && '%' !in x && '/' !in x && '%' !in y && '/' !in y
    ensures !PatternCovers(front + (x + "/*"), front + (x + "/../" + y))
  {
    var stem, bare := front + (x + "/"), front + (x + "/../" + y);
    StemOfOne(front, x);
    Shapes(front, x, y);
    Starred(stem, bare);
    ParentSteps(front, x, y);
    PercentFreeParts(bare);
    SchemeStays(front, x + "/*");
    PlainNotCovered(stem, bare);
  }

  lemma Shapes(front: string, x: string, y: string)
    ensures front + (x + "/*") == front + (x + "/") + "*"
    ensures front + (x + "/../" + y) == front + (x + "/") + ("../" + y)
  {
    Regroup(front, x, "/", "*");
    assert "/" + "*" == "/*";
    Regroup(front, x, "/", "../" + y);
    Regroup(x, "/", "../", y);
    assert "/" + "../" == "/../";
  }

  lemma Regroup(a: string, b: string, c: string, d: string)
    ensures a + (b + c) + d == a + (b + (c + d)) == a + ((b + c) + d)
    ensures a + (b + c) + d == a + b + (c + d)
  {
  }

  lemma PlainNotCovered(stem: string, bare: string)
    requires IsPrefixPattern(stem + "*") && PercentFree(stem) && SchemeOf(stem + "*") != ""
    requires SlashFree(bare) && (stem + "*")[..|stem + "*"| - 1] == stem
    requires |Parts(bare)| <= |Parts(stem)| && Parts(stem) != []
    ensures !PatternCovers(stem + "*", bare)
  {
    PlainPatternCovers(stem + "*", bare);
  }

  /** A scheme and one plain segment with a slash behind it. */
  lemma StemOfOne(front: string, x: string)
    requires SchemeOf(front) == front != "" && Plain(x) && '%' !in x && '/' !in x
    ensures Parts(front + (x + "/")) == [x]
    ensures WithSlash(Normalize(front + (x + "/"))) == front + (x + "/")
  {
    SchemeStays(front, x + "/");
    NothingToDecode("");
    NothingToDecode(x);
    SplitWithoutSep(x, '/');
    ResolveOne(x);
    assert x + "/" == x + "/" + "";
    ResolveInDirectory(x, "");
    WithSlashShape(front, x);
  }

  lemma WithSlashShape(front: string, x: string)
    requires x != "" && '/' !in x
    ensures WithSlash(front + x) == front + (x + "/")
  {
    assert (front + x)[|front + x| - 1] == x[|x| - 1];
    assert front + x + "/" == front + (x + "/");
  }

  lemma ParentSteps(front: string, x: string, y: string)
    requires SchemeOf(front) == front != "" && Plain(x)
    requires '%' !in front && '%' !in x && '/' !in x && '%' !in y && '/' !in y
    ensures PercentFree(front + (x + "/../" + y)) && |Parts(front + (x + "/../" + y))| <= 1
  {
    var path := x + "/../" + y;
    SchemeStays(front, path);
    assert path == x + "/" + ".." + "/" + y;
    NothingToDecode(x);
    SplitWithoutSep(x, '/');
    ResolveOne(x);
    ResolveInDirectory(x, "..");
    ResolveInDirectory(x + "/" + "..", y);
  }

  /** With the pattern of the source's own examples. */
  lemma EscapedDotsExample()
    ensures Normalize("mcp://tools%2F..%2Fadmin") == "mcp://tools/../admin"
    ensures PatternCovers("mcp://tools/*", "mcp://tools%2F..%2Fadmin")
    ensures !PatternCovers("mcp://tools/*", "mcp://tools/../admin")
  {
    var front := "mcp://";
    assert SeparatorAt(front, 3) && !SeparatorAt(front, 0) && !SeparatorAt(front, 1) && !SeparatorAt(front, 2);
    assert front + ("tools" + "%2F..%2F" + "admin") == "mcp://tools%2F..%2Fadmin";
    assert front + ("tools" + "/../" + "admin") == "mcp://tools/../admin";
    assert front + ("tools" + "/*") == "mcp://tools/*";
    EscapedDotsStay(front, "tools", "admin");
    EscapedDotsCovered(front, "tools", "admin");
  }

  /** Widening an allowlist never loses a resource. */
  lemma CoveredMonotone(uri: string, few: seq<string>, many: seq<string>)
    requires forall p | p in few :: p in many
    ensures ResourceCovered(uri, few) ==> ResourceCovered(uri, many)
  {
  }
}
