/**
 The capability index: exact resources in a map, prefix patterns in a list sorted
 longest first, against the plain scan over all patterns.

 A Rust string is its sequence of Unicode scalar values; its length is counted in
 UTF-8 bytes.
 */
module CapabilityIndex {
  import opened Utf8
  import opened Segments

  // ---- patterns ----

  predicate IsPrefixPattern(p: string) {
    |p| >= 2 && p[|p| - 1] == '*' && p[|p| - 2] == '/'
  }

  /** The pattern without its final star. */
  function Namespace(p: string): string
    requires IsPrefixPattern(p)
  {
    p[..|p| - 1]
  }

  predicate Matches(p: string, resource: string) {
    if IsPrefixPattern(p) then Namespace(p) <= resource else p == resource
  }

  predicate ToolCovered(child: string, parentTools: seq<string>) {
    exists p | p in parentTools :: p == "*" || p == child || (IsPrefixPattern(p) && Namespace(p) <= child)
  }

  /** In slash-separated segments: the pattern ends in a star of its own, and what is
      in front of it leads to the name. */
  predicate Below(p: string, name: string) {
    var ps := Split(p, '/');
    |ps| > 1 && ps[|ps| - 1] == "*" && ps[..|ps| - 1] < Split(name, '/')
  }

  /** The simple form, on segments: a universal grant, or some pattern that is the
      resource or leads to it, together with a tool that is the wildcard, is the tool
      or leads to it. */
  predicate PlainScan(resources: seq<string>, tools: seq<string>, resource: string, tool: string) {
    || "*" in resources
    || ((exists p | p in resources :: p == resource || Below(p, resource))
        && exists p | p in tools :: p == "*" || p == tool || Below(p, tool))
  }

  /** Leading to a name is the string test on the text in front of the star. */
  lemma BelowExactly(p: string, name: string)
    ensures Below(p, name) <==> IsPrefixPattern(p) && Namespace(p) <= name
  {
    if IsPrefixPattern(p) {
      var stem := p[..|p| - 2];
      assert p == stem + "/" + "*" && Namespace(p) == stem + "/";
      SplitConcat(stem, "*", '/');
      SplitWithoutSep("*", '/');
      PrefixIsSegmentPrefix(stem, name, '/');
    } else if Below(p, name) {
      var ps := Split(p, '/');
      StarAlone(p, ps);
    }
  }

  lemma StarAlone(p: string, ps: seq<string>)
    requires ps == Split(p, '/') && |ps| > 1 && ps[|ps| - 1] == "*"
    ensures IsPrefixPattern(p)
  {
    var front := ps[..|ps| - 1];
    JoinSplit(p, '/');
    assert ps == front + ["*"];
    JoinConcat(front, ["*"], '/');
    assert p == Join(front, '/') + ['/'] + "*";
  }

  lemma ScanByStrings(resources: seq<string>, tools: seq<string>, resource: string, tool: string)
    ensures PlainScan(resources, tools, resource, tool) <==>
            || "*" in resources
            || ((exists p | p in resources :: Matches(p, resource)) && ToolCovered(tool, tools))
  {
    forall p | p in resources ensures p == resource || Below(p, resource) <==> Matches(p, resource) {
      BelowExactly(p, resource);
      if IsPrefixPattern(p) && p == resource {
        assert Namespace(p) <= resource;
      }
    }
    forall p ensures Below(p, tool) <==> IsPrefixPattern(p) && Namespace(p) <= tool {
      BelowExactly(p, tool);
    }
  }

  // ---- the index ----

  datatype PrefixEntry = PrefixEntry(namespace: string, tools: seq<string>)

  datatype Index = Index(exact: map<string, seq<string>>, prefix: seq<PrefixEntry>, universal: bool)

  /** The first prefix entry, in list order, that the resource starts with. */
  function FirstPrefix(prefix: seq<PrefixEntry>, resource: string): (k: nat)
    ensures k <= |prefix|
    ensures k < |prefix| ==> prefix[k].namespace <= resource
    ensures forall j | 0 <= j < k :: !(prefix[j].namespace <= resource)
  {
    if prefix == [] || prefix[0].namespace <= resource then 0 else 1 + FirstPrefix(prefix[1..], resource)
  }

  /** The lookup: universal grant, exact entry, first prefix entry, in this order. */
  predicate Covers(idx: Index, resource: string, tool: string) {
    if idx.universal then true
    else if resource in idx.exact then ToolCovered(tool, idx.exact[resource])
    else
      var k := FirstPrefix(idx.prefix, resource);
      k < |idx.prefix| && ToolCovered(tool, idx.prefix[k].tools)
  }

  ghost predicate LongestFirst(prefix: seq<PrefixEntry>) {
    forall i, j | 0 <= i < j < |prefix| :: Utf8Length(prefix[i].namespace) >= Utf8Length(prefix[j].namespace)
  }

  predicate SameElements(a: seq<string>, b: seq<string>) {
    (forall x | x in a :: x in b) && (forall x | x in b :: x in a)
  }

  predicate IsExactPattern(p: string) {
    p != "*" && !IsPrefixPattern(p)
  }

  /** One prefix entry per prefix pattern, duplicates included, in input order. */
  function PrefixEntries(resources: seq<string>, tools: seq<string>): seq<PrefixEntry> {
    if resources == [] then [] else
      var init, last := resources[..|resources| - 1], resources[|resources| - 1];
      PrefixEntries(init, tools)
        + (if last != "*" && IsPrefixPattern(last) then [PrefixEntry(Namespace(last), tools)] else [])
  }

  /** What the unsorted tables hold after some of the resources. */
  ghost predicate Holds(exact: map<string, seq<string>>, universal: bool, resources: seq<string>, tools: seq<string>) {
    && (universal <==> "*" in resources)
    && (forall r :: r in exact <==> r in resources && IsExactPattern(r))
    && (forall r | r in exact :: SameElements(exact[r], tools))
  }

  method Build(resources: seq<string>, tools: seq<string>) returns (idx: Index)
    ensures Holds(idx.exact, idx.universal, resources, tools)
    ensures multiset(idx.prefix) == multiset(PrefixEntries(resources, tools))
    ensures LongestFirst(idx.prefix)
    ensures forall resource, tool :: Covers(idx, resource, tool) <==> PlainScan(resources, tools, resource, tool)
  {
    var exact: map<string, seq<string>> := map[];
    var prefix: seq<PrefixEntry> := [];
    var universal := false;
    for k := 0 to |resources|
      invariant Holds(exact, universal, resources[..k], tools)
      invariant prefix == PrefixEntries(resources[..k], tools)
    {
      var resource := resources[k];
      assert resources[..k + 1] == resources[..k] + [resource];
      HoldsStep(exact, universal, resources[..k], tools, resource);
      EntriesSnoc(resources[..k], tools, resource);
      if resource == "*" {
        universal := true;
      } else if IsPrefixPattern(resource) {
        prefix := prefix + [PrefixEntry(resource[..|resource| - 1], tools)];
      } else {
        var before := if resource in exact then exact[resource] else [];
        exact := exact[resource := before + tools];
      }
    }
    assert resources[..|resources|] == resources;
    prefix := SortLongestFirst(prefix);
    idx := Index(exact, prefix, universal);
    forall resource, tool ensures Covers(idx, resource, tool) <==> PlainScan(resources, tools, resource, tool) {
      IndexRefinesScan(idx, resources, tools, resource, tool);
    }
  }

  function AddExact(exact: map<string, seq<string>>, tools: seq<string>, r: string): map<string, seq<string>> {
    if IsExactPattern(r) then exact[r := (if r in exact then exact[r] else []) + tools] else exact
  }

  lemma HoldsStep(exact: map<string, seq<string>>, universal: bool, resources: seq<string>, tools: seq<string>, r: string)
    requires Holds(exact, universal, resources, tools)
    ensures Holds(AddExact(exact, tools, r), universal || r == "*", resources + [r], tools)
  {
    assert forall x :: x in resources + [r] <==> x in resources || x == r;
  }

  lemma EntriesSnoc(resources: seq<string>, tools: seq<string>, r: string)
    ensures PrefixEntries(resources + [r], tools) ==
            PrefixEntries(resources, tools)
              + (if r != "*" && IsPrefixPattern(r) then [PrefixEntry(Namespace(r), tools)] else [])
  {
    assert (resources + [r])[..|resources|] == resources;
  }

  /** A sort by falling length. */
  method SortLongestFirst(entries: seq<PrefixEntry>) returns (sorted: seq<PrefixEntry>)
    ensures multiset(sorted) == multiset(entries) && LongestFirst(sorted)
  {
    sorted := [];
    for k := 0 to |entries|
      invariant multiset(sorted) == multiset(entries[..k]) && LongestFirst(sorted)
    {
      assert entries[..k + 1] == entries[..k] + [entries[k]];
      sorted := InsertByLength(sorted, entries[k]);
    }
    assert entries[..|entries|] == entries;
  }

  method InsertByLength(sorted: seq<PrefixEntry>, e: PrefixEntry) returns (r: seq<PrefixEntry>)
    requires LongestFirst(sorted)
    ensures multiset(r) == multiset(sorted) + multiset{e} && LongestFirst(r)
  {
    var i := |sorted|;
    while i > 0 && Utf8Length(sorted[i - 1].namespace) < Utf8Length(e.namespace)
      invariant 0 <= i <= |sorted|
      invariant i < |sorted| ==> Utf8Length(sorted[i].namespace) < Utf8Length(e.namespace)
    {
      i := i - 1;
    }
    r := sorted[..i] + [e] + sorted[i..];
    InsertedInOrder(sorted, i, e);
    InsertedOnce(sorted, i, e);
  }

  lemma InsertedOnce(sorted: seq<PrefixEntry>, i: nat, e: PrefixEntry)
    requires i <= |sorted|
    ensures multiset(sorted[..i] + [e] + sorted[i..]) == multiset(sorted) + multiset{e}
  {
    assert sorted == sorted[..i] + sorted[i..];
  }

  lemma InsertedInOrder(sorted: seq<PrefixEntry>, i: nat, e: PrefixEntry)
    requires LongestFirst(sorted) && i <= |sorted|
    requires i > 0 ==> Utf8Length(sorted[i - 1].namespace) >= Utf8Length(e.namespace)
    requires i < |sorted| ==> Utf8Length(sorted[i].namespace) < Utf8Length(e.namespace)
    ensures LongestFirst(sorted[..i] + [e] + sorted[i..])
  {
    var r := sorted[..i] + [e] + sorted[i..];
    forall a | 0 <= a < |r| ensures r[a] == if a < i then sorted[a] else if a == i then e else sorted[a - 1] {
    }
  }

  // ---- fast form against simple form ----

  lemma {:induction false} EntriesMeaning(resources: seq<string>, tools: seq<string>, e: PrefixEntry)
    ensures e in PrefixEntries(resources, tools) <==>
            e.tools == tools && exists p | p in resources :: p != "*" && IsPrefixPattern(p) && Namespace(p) == e.namespace
  {
    if resources != [] {
      var init, last := resources[..|resources| - 1], resources[|resources| - 1];
      EntriesMeaning(init, tools, e);
      assert resources == init + [last];
    }
  }

  lemma SameToolsCover(tool: string, a: seq<string>, b: seq<string>)
    requires SameElements(a, b)
    ensures ToolCovered(tool, a) <==> ToolCovered(tool, b)
  {
  }

  /** The index decides as the plain scan, whatever duplicates, overlaps or order
      the input has, and however equal lengths are ordered by the sort. */
  lemma IndexRefinesScan(idx: Index, resources: seq<string>, tools: seq<string>, resource: string, tool: string)
    requires Holds(idx.exact, idx.universal, resources, tools)
    requires multiset(idx.prefix) == multiset(PrefixEntries(resources, tools))
    ensures Covers(idx, resource, tool) <==> PlainScan(resources, tools, resource, tool)
  {
    ScanByStrings(resources, tools, resource, tool);
    if idx.universal {
    } else if resource in idx.exact {
      SameToolsCover(tool, idx.exact[resource], tools);
      assert Matches(resource, resource);
    } else {
      PrefixLookup(idx, resources, tools, resource);
    }
  }

  lemma PrefixLookup(idx: Index, resources: seq<string>, tools: seq<string>, resource: string)
    requires multiset(idx.prefix) == multiset(PrefixEntries(resources, tools))
    requires "*" !in resources && !(resource in resources && IsExactPattern(resource))
    ensures var k := FirstPrefix(idx.prefix, resource);
            && (k < |idx.prefix| <==> exists p | p in resources :: Matches(p, resource))
            && (k < |idx.prefix| ==> idx.prefix[k].tools == tools)
  {
    var k := FirstPrefix(idx.prefix, resource);
    if k < |idx.prefix| {
      var e := idx.prefix[k];
      assert e in multiset(idx.prefix);
      EntriesMeaning(resources, tools, e);
    }
    if p :| p in resources && Matches(p, resource) {
      var e := PrefixEntry(Namespace(p), tools);
      EntriesMeaning(resources, tools, e);
      assert e in multiset(PrefixEntries(resources, tools));
      assert e in idx.prefix;
    }
  }

  /** The prefix entry that is consulted is a longest one that matches. */
  lemma ConsultsLongest(idx: Index, resource: string, j: nat)
    requires LongestFirst(idx.prefix) && j < |idx.prefix| && idx.prefix[j].namespace <= resource
    ensures var k := FirstPrefix(idx.prefix, resource);
            k < |idx.prefix| && Utf8Length(idx.prefix[k].namespace) >= Utf8Length(idx.prefix[j].namespace)
  {
  }
}
