/**
 The SDK's JSON canonicalisation (RFC 8785), with a parser that undoes it.

 Values are what the serialiser can meet: besides JSON proper, `undefined`,
 non-finite numbers and values of other JavaScript types. A finite number is given
 by the token the platform prints for it.
 */
module Jcs {
  import opened Wrappers
  import opened Utf16

  datatype Json =
    | Undefined
    | Null
    | Bool(b: bool)
    | Num(token: Text)
    | NonFinite
    | Str(s: Text)
    | Arr(items: seq<Json>)
    | Obj(members: seq<Member>)
    | Foreign

  datatype Member = Member(key: Text, value: Json)

  const MAX_DEPTH := 128

  const QUOTE: Unit := 0x22
  const BACKSLASH: Unit := 0x5C
  const COMMA: Unit := 0x2C
  const COLON: Unit := 0x3A
  const LBRACKET: Unit := 0x5B
  const RBRACKET: Unit := 0x5D
  const LBRACE: Unit := 0x7B
  const RBRACE: Unit := 0x7D
  const NULL: Text := [0x6E, 0x75, 0x6C, 0x6C]
  const TRUE: Text := [0x74, 0x72, 0x75, 0x65]
  const FALSE: Text := [0x66, 0x61, 0x6C, 0x73, 0x65]

  /** Digits, signs, the point and the exponent letters. */
  predicate IsNumberUnit(u: Unit) {
    0x30 <= u <= 0x39 || u == 0x2B || u == 0x2D || u == 0x2E || u == 0x45 || u == 0x65
  }

  predicate IsNumberToken(t: Text) {
    t != [] && forall i | 0 <= i < |t| :: IsNumberUnit(t[i])
  }

  ghost predicate DistinctKeys(ms: seq<Member>) {
    forall i, j | 0 <= i < j < |ms| :: ms[i].key != ms[j].key
  }

  /** Number tokens are tokens, and an object has no key twice. */
  ghost predicate IsValue(v: Json) {
    match v
    case Num(token) => IsNumberToken(token)
    case Arr(items) => forall i | 0 <= i < |items| :: IsValue(items[i])
    case Obj(members) => DistinctKeys(members) && forall i | 0 <= i < |members| :: IsValue(members[i].value)
    case _ => true
  }

  // ---- strings ----

  /** Lower-case hexadecimal. */
  function HexUnit(d: nat): Unit
    requires d < 16
  {
    if d < 10 then 0x30 + d else 0x61 + (d - 10)
  }

  function HexEscape(u: Unit): (t: Text)
    ensures |t| == 6
  {
    [BACKSLASH, 0x75, HexUnit(u / 16 / 16 / 16), HexUnit(u / 16 / 16 % 16), HexUnit(u / 16 % 16), HexUnit(u % 16)]
  }

  /** One unit inside a string literal: the short escapes, `\u` for the other control
      units and for surrogates that are not half of a pair, else the unit itself. */
  function EscapeUnit(u: Unit, paired: bool): (t: Text)
    ensures t != []
  {
    if u == QUOTE || u == BACKSLASH then [BACKSLASH, u]
    else if u == 8 then [BACKSLASH, 0x62]
    else if u == 9 then [BACKSLASH, 0x74]
    else if u == 10 then [BACKSLASH, 0x6E]
    else if u == 12 then [BACKSLASH, 0x66]
    else if u == 13 then [BACKSLASH, 0x72]
    else if u < 0x20 then HexEscape(u)
    else if IsSurrogate(u) && !paired then HexEscape(u)
    else [u]
  }

  function EscapeFrom(s: Text, i: nat): Text
    decreases |s| - i
  {
    if i >= |s| then [] else EscapeUnit(s[i], Paired(s, i)) + EscapeFrom(s, i + 1)
  }

  /** A string literal. */
  function Quote(s: Text): Text {
    [QUOTE] + EscapeFrom(s, 0) + [QUOTE]
  }

  // ---- key order ----

  function InsertMember(m: Member, sorted: seq<Member>): (r: seq<Member>)
    ensures |r| == |sorted| + 1
    ensures forall x | x in r :: x == m || x in sorted
    ensures m in r && forall x | x in sorted :: x in r
  {
    if sorted == [] then [m]
    else if KeyLess(m.key, sorted[0].key) then [m] + sorted
    else
      var rest := InsertMember(m, sorted[1..]);
      assert sorted == [sorted[0]] + sorted[1..];
      [sorted[0]] + rest
  }

  function SortMembers(ms: seq<Member>): (r: seq<Member>)
    ensures |r| == |ms|
    ensures forall x :: x in r <==> x in ms
  {
    if ms == [] then []
    else
      assert ms == [ms[0]] + ms[1..];
      InsertMember(ms[0], SortMembers(ms[1..]))
  }

  /** The members that are not `undefined`. */
  function Defined(ms: seq<Member>): (r: seq<Member>)
    ensures forall x :: x in r <==> x in ms && !x.value.Undefined?
  {
    if ms == [] then []
    else
      assert ms == [ms[0]] + ms[1..];
      if ms[0].value.Undefined? then Defined(ms[1..]) else [ms[0]] + Defined(ms[1..])
  }

  // ---- the serialiser ----

  datatype JcsError = TooDeep | NotFinite

  /** The serialiser with its two errors; elements and members in output order. */
  function Serialise(v: Json, depth: nat): Result<Text, JcsError>
    decreases v
  {
    if depth > MAX_DEPTH then Err(TooDeep)
    else
      match v
      case Bool(b) => Ok(if b then TRUE else FALSE)
      case Num(token) => Ok(token)
      case NonFinite => Err(NotFinite)
      case Str(s) => Ok(Quote(s))
      case Arr(items) =>
        (match SerialiseItems(v, items, depth + 1)
         case Err(e) => Err(e)
         case Ok(body) => Ok([LBRACKET] + body + [RBRACKET]))
      case Obj(members) =>
        (match SerialiseMembers(v, SortMembers(Defined(members)), depth + 1)
         case Err(e) => Err(e)
         case Ok(body) => Ok([LBRACE] + body + [RBRACE]))
      case _ => Ok(NULL)
  }

  function SerialiseItems(owner: Json, items: seq<Json>, depth: nat): Result<Text, JcsError>
    requires owner.Arr? && forall x | x in items :: x in owner.items
    decreases owner, |items|
  {
    if items == [] then Ok([])
    else
      assert items[0] in owner.items;
      match Serialise(items[0], depth)
      case Err(e) => Err(e)
      case Ok(first) =>
        if |items| == 1 then Ok(first)
        else
          match SerialiseItems(owner, items[1..], depth)
          case Err(e) => Err(e)
          case Ok(rest) => Ok(first + [COMMA] + rest)
  }

  function SerialiseMembers(owner: Json, ms: seq<Member>, depth: nat): Result<Text, JcsError>
    requires owner.Obj? && forall x | x in ms :: x in owner.members
    decreases owner, |ms|
  {
    if ms == [] then Ok([])
    else
      assert ms[0] in owner.members;
      match Serialise(ms[0].value, depth)
      case Err(e) => Err(e)
      case Ok(value) =>
        var first := Quote(ms[0].key) + [COLON] + value;
        if |ms| == 1 then Ok(first)
        else
          match SerialiseMembers(owner, ms[1..], depth)
          case Err(e) => Err(e)
          case Ok(rest) => Ok(first + [COMMA] + rest)
  }

  // ---- when it fails ----

  /** Containers nested no deeper than this; absent members do not count. */
  ghost predicate NestedWithin(v: Json, levels: int) {
    levels >= 0 &&
    match v
    case Arr(items) => forall x | x in items :: NestedWithin(x, levels - 1)
    case Obj(members) => forall x | x in members && !x.value.Undefined? :: NestedWithin(x.value, levels - 1)
    case _ => true
  }

  ghost predicate AllFinite(v: Json) {
    match v
    case NonFinite => false
    case Arr(items) => forall x | x in items :: AllFinite(x)
    case Obj(members) => forall x | x in members && !x.value.Undefined? :: AllFinite(x.value)
    case _ => true
  }

  ghost predicate ItemsFine(items: seq<Json>, levels: int) {
    forall x | x in items :: NestedWithin(x, levels) && AllFinite(x)
  }

  ghost predicate MembersFine(ms: seq<Member>, levels: int) {
    forall x | x in ms :: NestedWithin(x.value, levels) && AllFinite(x.value)
  }

  /** Serialisation succeeds exactly on values nested within the limit that hold no
      non-finite number. */
  lemma {:induction false} SucceedsExactly(v: Json, depth: nat)
    ensures Serialise(v, depth).Ok? <==> NestedWithin(v, MAX_DEPTH - depth) && AllFinite(v)
    decreases v, 2, 0
  {
    if depth <= MAX_DEPTH && v.Arr? {
      ArraySucceedsExactly(v, depth);
    } else if depth <= MAX_DEPTH && v.Obj? {
      ObjectSucceedsExactly(v, depth);
    } else {
      LeafSucceeds(v, depth);
    }
  }

  lemma {:induction false} ArraySucceedsExactly(v: Json, depth: nat)
    requires v.Arr? && depth <= MAX_DEPTH
    ensures Serialise(v, depth).Ok? <==> NestedWithin(v, MAX_DEPTH - depth) && AllFinite(v)
    decreases v, 1, 0
  {
    ItemsSucceedExactly(v, v.items, depth + 1);
    ArraySucceeds(v, depth);
  }

  lemma {:induction false} ObjectSucceedsExactly(v: Json, depth: nat)
    requires v.Obj? && depth <= MAX_DEPTH
    ensures Serialise(v, depth).Ok? <==> NestedWithin(v, MAX_DEPTH - depth) && AllFinite(v)
    decreases v, 1, 0
  {
    MembersSucceedExactly(v, SortMembers(Defined(v.members)), depth + 1);
    ObjectSucceeds(v, depth);
  }

  lemma LeafSucceeds(v: Json, depth: nat)
    requires depth > MAX_DEPTH || !(v.Arr? || v.Obj?)
    ensures Serialise(v, depth).Ok? <==> NestedWithin(v, MAX_DEPTH - depth) && AllFinite(v)
  {
  }

  lemma ArraySucceeds(v: Json, depth: nat)
    requires v.Arr? && depth <= MAX_DEPTH
    requires SerialiseItems(v, v.items, depth + 1).Ok? <==> ItemsFine(v.items, MAX_DEPTH - (depth + 1))
    ensures Serialise(v, depth).Ok? <==> NestedWithin(v, MAX_DEPTH - depth) && AllFinite(v)
  {
  }

  lemma ObjectSucceeds(v: Json, depth: nat)
    requires v.Obj? && depth <= MAX_DEPTH
    requires SerialiseMembers(v, SortMembers(Defined(v.members)), depth + 1).Ok? <==>
             MembersFine(SortMembers(Defined(v.members)), MAX_DEPTH - (depth + 1))
    ensures Serialise(v, depth).Ok? <==> NestedWithin(v, MAX_DEPTH - depth) && AllFinite(v)
  {
    assert forall x :: x in SortMembers(Defined(v.members)) <==> x in v.members && !x.value.Undefined?;
  }

  lemma {:induction false} ItemsSucceedExactly(owner: Json, items: seq<Json>, depth: nat)
    requires owner.Arr? && forall x | x in items :: x in owner.items
    ensures SerialiseItems(owner, items, depth).Ok? <==> ItemsFine(items, MAX_DEPTH - depth)
    decreases owner, 0, |items|
  {
    if items != [] {
      assert items[0] in owner.items && items == [items[0]] + items[1..];
      SucceedsExactly(items[0], depth);
      ItemsSucceedExactly(owner, items[1..], depth);
      assert items[0] in items && forall x | x in items[1..] :: x in items;
      assert |items| == 1 ==> items[1..] == [];
    }
  }

  lemma {:induction false} MembersSucceedExactly(owner: Json, ms: seq<Member>, depth: nat)
    requires owner.Obj? && forall x | x in ms :: x in owner.members
    ensures SerialiseMembers(owner, ms, depth).Ok? <==> MembersFine(ms, MAX_DEPTH - depth)
    decreases owner, 0, |ms|
  {
    if ms != [] {
      assert ms[0] in owner.members && ms == [ms[0]] + ms[1..];
      SucceedsExactly(ms[0].value, depth);
      MembersSucceedExactly(owner, ms[1..], depth);
    }
  }

  // ---- what a value means, whatever the order of its members ----

  datatype Meaning =
    | MNull
    | MBool(b: bool)
    | MNum(token: Text)
    | MNonFinite
    | MStr(s: Text)
    | MArr(items: seq<Meaning>)
    | MObj(members: map<Text, Meaning>)

  function Denote(v: Json): Meaning
    decreases v
  {
    match v
    case Bool(b) => MBool(b)
    case Num(token) => MNum(token)
    case NonFinite => MNonFinite
    case Str(s) => MStr(s)
    case Arr(items) => MArr(DenoteItems(v, items))
    case Obj(members) => MObj(DenoteMembers(v, members))
    case _ => MNull
  }

  function DenoteItems(owner: Json, items: seq<Json>): (r: seq<Meaning>)
    requires owner.Arr? && forall x | x in items :: x in owner.items
    ensures |r| == |items|
    decreases owner, |items|
  {
    if items == [] then []
    else
      assert items[0] in owner.items;
      [Denote(items[0])] + DenoteItems(owner, items[1..])
  }

  function DenoteMembers(owner: Json, ms: seq<Member>): map<Text, Meaning>
    requires owner.Obj? && forall x | x in ms :: x in owner.members
    decreases owner, |ms|
  {
    if ms == [] then map[]
    else
      assert ms[0] in owner.members;
      var rest := DenoteMembers(owner, ms[1..]);
      if ms[0].value.Undefined? then rest else rest[ms[0].key := Denote(ms[0].value)]
  }

  /** The keys of the members that are not `undefined`. */
  ghost function Keys(ms: seq<Member>): set<Text> {
    set x | x in ms && !x.value.Undefined? :: x.key
  }

  lemma {:induction false} DenoteMembersAt(owner: Json, ms: seq<Member>)
    requires owner.Obj? && (forall x | x in ms :: x in owner.members) && DistinctKeys(ms)
    ensures DenoteMembers(owner, ms).Keys == Keys(ms)
    ensures forall x | x in ms && !x.value.Undefined? :: DenoteMembers(owner, ms)[x.key] == Denote(x.value)
    decreases |ms|
  {
    if ms != [] {
      DenoteMembersAt(owner, ms[1..]);
      assert ms == [ms[0]] + ms[1..];
      assert forall x | x in ms[1..] :: x.key != ms[0].key;
    }
  }

  // ---- what sorting gives ----

  ghost predicate Ascending(ms: seq<Member>) {
    forall i, j | 0 <= i < j < |ms| :: KeyLess(ms[i].key, ms[j].key)
  }

  lemma {:induction false} InsertAscending(m: Member, sorted: seq<Member>)
    requires Ascending(sorted) && forall x | x in sorted :: x.key != m.key
    ensures Ascending(InsertMember(m, sorted))
  {
    if sorted != [] {
      var r := InsertMember(m, sorted);
      assert sorted == [sorted[0]] + sorted[1..];
      KeyOrderIsTotal(m.key, sorted[0].key, m.key);
      if KeyLess(m.key, sorted[0].key) {
        forall j | 0 < j < |sorted| ensures KeyLess(m.key, sorted[j].key) {
          KeyOrderIsTotal(m.key, sorted[0].key, sorted[j].key);
        }
      } else {
        var tail := InsertMember(m, sorted[1..]);
        InsertAscending(m, sorted[1..]);
        forall j | 0 <= j < |tail| ensures KeyLess(sorted[0].key, tail[j].key) {
          assert tail[j] in tail;
        }
        assert r == [sorted[0]] + tail;
      }
    }
  }

  lemma {:induction false} SortAscending(ms: seq<Member>)
    requires DistinctKeys(ms)
    ensures Ascending(SortMembers(ms))
  {
    if ms != [] {
      SortAscending(ms[1..]);
      forall x | x in SortMembers(ms[1..]) ensures x.key != ms[0].key {
        assert x in ms[1..];
      }
      InsertAscending(ms[0], SortMembers(ms[1..]));
    }
  }

  lemma AscendingDistinct(ms: seq<Member>)
    requires Ascending(ms)
    ensures DistinctKeys(ms)
  {
    forall i, j | 0 <= i < j < |ms| ensures ms[i].key != ms[j].key {
      KeyOrderIsTotal(ms[i].key, ms[j].key, ms[i].key);
    }
  }

  lemma {:induction false} DefinedDistinct(ms: seq<Member>)
    requires DistinctKeys(ms)
    ensures DistinctKeys(Defined(ms))
  {
    if ms != [] {
      DefinedDistinct(ms[1..]);
      assert forall x | x in Defined(ms[1..]) :: x in ms[1..] && x.key != ms[0].key;
    }
  }

  /** The members as they are printed: ascending, the same keys, the same meaning. */
  lemma SortedForm(owner: Json) returns (sorted: seq<Member>)
    requires owner.Obj? && DistinctKeys(owner.members)
    ensures sorted == SortMembers(Defined(owner.members))
    ensures Ascending(sorted) && DistinctKeys(sorted)
    ensures forall x | x in sorted :: x in owner.members && !x.value.Undefined?
    ensures Keys(sorted) == Keys(owner.members)
    ensures DenoteMembers(owner, sorted) == DenoteMembers(owner, owner.members)
  {
    sorted := SortMembers(Defined(owner.members));
    DefinedDistinct(owner.members);
    SortAscending(Defined(owner.members));
    AscendingDistinct(sorted);
    SameMap(owner, sorted, owner.members);
  }

  lemma SameMap(owner: Json, ms: seq<Member>, ns: seq<Member>)
    requires owner.Obj? && forall x | x in ms || x in ns :: x in owner.members
    requires DistinctKeys(ms) && DistinctKeys(ns) && Keys(ms) == Keys(ns)
    requires forall x | x in ms :: x in ns
    ensures DenoteMembers(owner, ms) == DenoteMembers(owner, ns)
  {
    DenoteMembersAt(owner, ms);
    DenoteMembersAt(owner, ns);
    forall k | k in Keys(ms) ensures DenoteMembers(owner, ms)[k] == DenoteMembers(owner, ns)[k] {
      var x :| x in ms && !x.value.Undefined? && x.key == k;
    }
  }

  /** Two ascending lists with the same keys have them at the same places. */
  lemma {:induction false} AscendingKeysAgree(ms: seq<Member>, ns: seq<Member>)
    requires Ascending(ms) && Ascending(ns)
    requires (forall x | x in ms :: !x.value.Undefined?) && (forall x | x in ns :: !x.value.Undefined?)
    requires Keys(ms) == Keys(ns)
    ensures |ms| == |ns| && forall i | 0 <= i < |ms| :: ms[i].key == ns[i].key
  {
    FirstKey(ms);
    FirstKey(ns);
    if ms != [] && ns != [] {
      SameFirstKey(ms, ns);
      TailKeys(ms);
      TailKeys(ns);
      AscendingKeysAgree(ms[1..], ns[1..]);
      forall i | 0 < i < |ms| ensures ms[i].key == ns[i].key {
        assert ms[i] == ms[1..][i - 1] && ns[i] == ns[1..][i - 1];
      }
    }
  }

  lemma SameFirstKey(ms: seq<Member>, ns: seq<Member>)
    requires Ascending(ms) && Ascending(ns) && ms != [] && ns != []
    requires ms[0].key in Keys(ns) && ns[0].key in Keys(ms)
    ensures ms[0].key == ns[0].key
  {
    var j :| 0 <= j < |ns| && ns[j].key == ms[0].key;
    var i :| 0 <= i < |ms| && ms[i].key == ns[0].key;
    KeyOrderIsTotal(ms[0].key, ns[0].key, ms[0].key);
  }

  lemma FirstKey(ms: seq<Member>)
    requires forall x | x in ms :: !x.value.Undefined?
    ensures ms != [] ==> ms[0].key in Keys(ms)
  {
  }

  lemma TailKeys(ms: seq<Member>)
    requires Ascending(ms) && ms != [] && !ms[0].value.Undefined?
    ensures Ascending(ms[1..])
    ensures Keys(ms[1..]) == Keys(ms) - {ms[0].key}
    ensures forall x | x in ms[1..] :: x in ms
  {
    AscendingDistinct(ms);
    assert ms == [ms[0]] + ms[1..];
    assert forall x | x in ms[1..] :: x.key != ms[0].key;
  }

  /** Any ascending arrangement of the defined members is the printed one: the sort
      the platform uses does not matter. */
  lemma {:induction false} SortIsUnique(ms: seq<Member>, other: seq<Member>)
    requires DistinctKeys(ms) && Ascending(other)
    requires forall x :: x in other <==> x in ms && !x.value.Undefined?
    ensures other == SortMembers(Defined(ms))
  {
    var sorted := SortedForm(Obj(ms));
    assert Keys(other) == Keys(ms);
    AscendingKeysAgree(sorted, other);
    forall i | 0 <= i < |sorted| ensures sorted[i] == other[i] {
      assert sorted[i] in ms && other[i] in other;
    }
  }

  // ---- the same meaning, the same text ----

  lemma {:induction false} SameMeaningSameText(v: Json, w: Json, depth: nat)
    requires IsValue(v) && IsValue(w) && Denote(v) == Denote(w)
    ensures Serialise(v, depth) == Serialise(w, depth)
    decreases v
  {
    if v.Arr? {
      assert forall x | x in v.items :: IsValue(x);
      assert forall x | x in w.items :: IsValue(x);
      SameItems(v, v.items, w, w.items, depth + 1);
    } else if v.Obj? {
      var ms, ns := SortedFormsAgree(v, w);
      SameMembers(v, ms, w, ns, depth + 1);
    }
  }

  lemma SortedFormsAgree(v: Json, w: Json) returns (ms: seq<Member>, ns: seq<Member>)
    requires IsValue(v) && IsValue(w) && v.Obj? && w.Obj? && Denote(v) == Denote(w)
    ensures ms == SortMembers(Defined(v.members)) && forall x | x in ms :: x in v.members && IsValue(x.value)
    ensures ns == SortMembers(Defined(w.members)) && forall x | x in ns :: x in w.members && IsValue(x.value)
    ensures |ms| == |ns|
    ensures forall i | 0 <= i < |ms| :: ms[i].key == ns[i].key && Denote(ms[i].value) == Denote(ns[i].value)
  {
    ms := SortedForm(v);
    ns := SortedForm(w);
    DenoteMembersAt(v, v.members);
    DenoteMembersAt(w, w.members);
    AscendingKeysAgree(ms, ns);
    forall i | 0 <= i < |ms| ensures Denote(ms[i].value) == Denote(ns[i].value) {
      assert ms[i] in v.members && ns[i] in w.members;
    }
  }

  lemma {:induction false} SameItems(v: Json, items: seq<Json>, w: Json, others: seq<Json>, depth: nat)
    requires v.Arr? && forall x | x in items :: x in v.items && IsValue(x)
    requires w.Arr? && forall x | x in others :: x in w.items && IsValue(x)
    requires DenoteItems(v, items) == DenoteItems(w, others)
    ensures SerialiseItems(v, items, depth) == SerialiseItems(w, others, depth)
    decreases v, |items|
  {
    if items != [] {
      assert items[0] in v.items && others[0] in w.items;
      assert Denote(items[0]) == DenoteItems(v, items)[0] == DenoteItems(w, others)[0] == Denote(others[0]);
      assert DenoteItems(v, items[1..]) == DenoteItems(v, items)[1..];
      assert DenoteItems(w, others[1..]) == DenoteItems(w, others)[1..];
      SameMeaningSameText(items[0], others[0], depth);
      SameItems(v, items[1..], w, others[1..], depth);
    }
  }

  lemma {:induction false} SameMembers(v: Json, ms: seq<Member>, w: Json, ns: seq<Member>, depth: nat)
    requires v.Obj? && forall x | x in ms :: x in v.members && IsValue(x.value)
    requires w.Obj? && forall x | x in ns :: x in w.members && IsValue(x.value)
    requires |ms| == |ns|
    requires forall i | 0 <= i < |ms| :: ms[i].key == ns[i].key && Denote(ms[i].value) == Denote(ns[i].value)
    ensures SerialiseMembers(v, ms, depth) == SerialiseMembers(w, ns, depth)
    decreases v, |ms|
  {
    if ms != [] {
      assert ms[0] in v.members && ns[0] in w.members;
      SameMeaningSameText(ms[0].value, ns[0].value, depth);
      SameMembers(v, ms[1..], w, ns[1..], depth);
    }
  }

  // ---- a parser ----

  function HexValue(u: Unit): Option<nat> {
    if 0x30 <= u <= 0x39 then Some(u - 0x30)
    else if 0x61 <= u <= 0x66 then Some(u - 0x61 + 10)
    else None
  }

  /** One unit of a string literal, escaped or not. */
  function ReadUnit(t: Text): (r: Option<(Unit, Text)>)
    ensures r.Some? ==> |r.value.1| < |t|
  {
    if t == [] then None
    else if t[0] != BACKSLASH then Some((t[0], t[1..]))
    else if |t| < 2 then None
    else if t[1] == QUOTE || t[1] == BACKSLASH then Some((t[1], t[2..]))
    else if t[1] == 0x62 then Some((8, t[2..]))
    else if t[1] == 0x74 then Some((9, t[2..]))
    else if t[1] == 0x6E then Some((10, t[2..]))
    else if t[1] == 0x66 then Some((12, t[2..]))
    else if t[1] == 0x72 then Some((13, t[2..]))
    else if t[1] != 0x75 || |t| < 6 then None
    else
      match (HexValue(t[2]), HexValue(t[3]), HexValue(t[4]), HexValue(t[5]))
      case (Some(a), Some(b), Some(c), Some(d)) =>
        var u := a * 4096 + b * 256 + c * 16 + d;
        if u < 0x1_0000 then Some((u, t[6..])) else None
      case _ => None
  }

  /** A string literal after its opening quote. */
  function ParseString(t: Text): (r: Option<(Text, Text)>)
    ensures r.Some? ==> |r.value.1| < |t|
    decreases |t|
  {
    if t == [] then None
    else if t[0] == QUOTE then Some(([], t[1..]))
    else
      match ReadUnit(t)
      case None => None
      case Some((u, after)) =>
        match ParseString(after)
        case None => None
        case Some((s, rest)) => Some(([u] + s, rest))
  }

  function NumberLength(t: Text): (n: nat)
    ensures n <= |t|
  {
    if t == [] || !IsNumberUnit(t[0]) then 0 else 1 + NumberLength(t[1..])
  }

  /** One JSON value without white space, and the text behind it. */
  function ParseValue(t: Text): (r: Option<(Meaning, Text)>)
    ensures r.Some? ==> |r.value.1| < |t|
    decreases |t|, 0
  {
    if t == [] then None
    else if t[0] == QUOTE then
      match ParseString(t[1..])
      case None => None
      case Some((s, rest)) => Some((MStr(s), rest))
    else if t[0] == LBRACKET then
      if |t| > 1 && t[1] == RBRACKET then Some((MArr([]), t[2..]))
      else
        match ParseItems(t[1..])
        case None => None
        case Some((items, rest)) => Some((MArr(items), rest))
    else if t[0] == LBRACE then
      if |t| > 1 && t[1] == RBRACE then Some((MObj(map[]), t[2..]))
      else
        match ParseMembers(t[1..])
        case None => None
        case Some((members, rest)) => Some((MObj(members), rest))
    else if NULL <= t then Some((MNull, t[4..]))
    else if TRUE <= t then Some((MBool(true), t[4..]))
    else if FALSE <= t then Some((MBool(false), t[5..]))
    else if IsNumberUnit(t[0]) then
      var n := NumberLength(t);
      Some((MNum(t[..n]), t[n..]))
    else None
  }

  /** Array elements up to the closing bracket. */
  function ParseItems(t: Text): (r: Option<(seq<Meaning>, Text)>)
    ensures r.Some? ==> |r.value.1| < |t|
    decreases |t|, 1
  {
    match ParseValue(t)
    case None => None
    case Some((first, after)) =>
      if after == [] then None
      else if after[0] == RBRACKET then Some(([first], after[1..]))
      else if after[0] != COMMA then None
      else
        match ParseItems(after[1..])
        case None => None
        case Some((more, rest)) => Some(([first] + more, rest))
  }

  /** Object members up to the closing brace; a repeated key is refused. */
  function ParseMembers(t: Text): (r: Option<(map<Text, Meaning>, Text)>)
    ensures r.Some? ==> |r.value.1| < |t|
    decreases |t|, 1
  {
    if t == [] || t[0] != QUOTE then None
    else
      match ParseString(t[1..])
      case None => None
      case Some((key, behind)) =>
        if behind == [] || behind[0] != COLON then None
        else
          match ParseValue(behind[1..])
          case None => None
          case Some((value, after)) =>
            if after == [] then None
            else if after[0] == RBRACE then Some((map[key := value], after[1..]))
            else if after[0] != COMMA then None
            else
              match ParseMembers(after[1..])
              case None => None
              case Some((more, rest)) =>
                if key in more then None else Some((more[key := value], rest))
  }

  /** The meaning of a whole text. */
  function Parse(t: Text): Option<Meaning> {
    match ParseValue(t)
    case Some((m, rest)) => if rest == [] then Some(m) else None
    case None => None
  }

  // ---- parsing undoes printing ----

  lemma ReadHexEscape(u: Unit, rest: Text)
    ensures ReadUnit(HexEscape(u) + rest) == Some((u, rest))
  {
    var t := HexEscape(u) + rest;
    var n: int := u;
    assert HexValue(t[2]) == Some(n / 16 / 16 / 16) && HexValue(t[3]) == Some(n / 16 / 16 % 16);
    assert HexValue(t[4]) == Some(n / 16 % 16) && HexValue(t[5]) == Some(n % 16);
    assert n == 16 * (n / 16) + n % 16;
    assert t[6..] == rest;
  }

  lemma ReadEscapedUnit(u: Unit, paired: bool, rest: Text)
    ensures (EscapeUnit(u, paired) + rest)[0] != QUOTE
    ensures ReadUnit(EscapeUnit(u, paired) + rest) == Some((u, rest))
  {
    var t := EscapeUnit(u, paired) + rest;
    ReadHexEscape(u, rest);
    if EscapeUnit(u, paired) == [u] {
      assert t[1..] == rest;
    } else if |EscapeUnit(u, paired)| == 2 {
      assert t[2..] == rest;
    }
  }

  lemma {:induction false} ParseEscaped(s: Text, i: nat, rest: Text)
    requires i <= |s|
    ensures ParseString(EscapeFrom(s, i) + ([QUOTE] + rest)) == Some((s[i..], rest))
    decreases |s| - i
  {
    var tail := [QUOTE] + rest;
    if i == |s| {
      assert EscapeFrom(s, i) + tail == tail;
      assert tail[1..] == rest;
    } else {
      var unit, more := EscapeUnit(s[i], Paired(s, i)), EscapeFrom(s, i + 1) + tail;
      Regroup([], unit, EscapeFrom(s, i + 1), tail);
      assert EscapeFrom(s, i) + tail == unit + more by {
        assert [] + unit == unit && [] + (unit + more) == unit + more;
      }
      ReadEscapedUnit(s[i], Paired(s, i), more);
      ParseEscaped(s, i + 1, rest);
      assert s[i..] == [s[i]] + s[i + 1..];
    }
  }

  lemma ParseQuoted(s: Text, rest: Text)
    ensures (Quote(s) + rest)[0] == QUOTE
    ensures ParseString((Quote(s) + rest)[1..]) == Some((s, rest))
  {
    assert (Quote(s) + rest)[1..] == EscapeFrom(s, 0) + ([QUOTE] + rest);
    ParseEscaped(s, 0, rest);
    assert s[0..] == s;
  }

  /** The text behind a number token must not go on with the number. */
  predicate Stops(rest: Text) {
    rest == [] || !IsNumberUnit(rest[0])
  }

  lemma {:induction false} ParseNumber(token: Text, rest: Text)
    requires (forall i | 0 <= i < |token| :: IsNumberUnit(token[i])) && Stops(rest)
    ensures NumberLength(token + rest) == |token|
  {
    if token == [] {
      assert token + rest == rest;
    } else {
      assert (token + rest)[1..] == token[1..] + rest;
      ParseNumber(token[1..], rest);
    }
  }

  /** The parser gives back the meaning of what was printed, and leaves the rest. */
  lemma {:induction false} ParseUndoesPrint(v: Json, depth: nat, rest: Text)
    requires IsValue(v) && Serialise(v, depth).Ok? && Stops(rest)
    ensures ParseValue(Serialise(v, depth).value + rest) == Some((Denote(v), rest))
    decreases v, 2, 0
  {
    var t := Serialise(v, depth).value + rest;
    if v.Num? {
      ParseNumber(v.token, rest);
      assert t[0] == v.token[0];
      assert t[..|v.token|] == v.token && t[|v.token|..] == rest;
    } else if v.Str? {
      ParseQuoted(v.s, rest);
    } else if v.Arr? {
      ParseArray(v, depth, rest);
    } else if v.Obj? {
      ParseObject(v, depth, rest);
    } else {
      var word := Serialise(v, depth).value;
      assert t[..|word|] == word && t[|word|..] == rest;
      assert t[0] == word[0];
    }
  }

  lemma {:induction false} ParseArray(v: Json, depth: nat, rest: Text)
    requires v.Arr? && IsValue(v) && Serialise(v, depth).Ok?
    ensures ParseValue(Serialise(v, depth).value + rest) == Some((Denote(v), rest))
    decreases v, 1, 0
  {
    var t := Serialise(v, depth).value + rest;
    var body := SerialiseItems(v, v.items, depth + 1).value;
    assert t == [LBRACKET] + body + [RBRACKET] + rest;
    if v.items == [] {
      assert t[2..] == rest;
    } else {
      assert forall x | x in v.items :: IsValue(x);
      assert t[1..] == body + ([RBRACKET] + rest);
      ParsePrintedItems(v, v.items, depth + 1, rest);
    }
  }

  lemma {:induction false} ParsePrintedItems(owner: Json, items: seq<Json>, depth: nat, rest: Text)
    requires owner.Arr? && items != [] && forall x | x in items :: x in owner.items && IsValue(x)
    requires SerialiseItems(owner, items, depth).Ok?
    ensures var t := SerialiseItems(owner, items, depth).value + ([RBRACKET] + rest);
            ParseItems(t) == Some((DenoteItems(owner, items), rest)) && t != [] && t[0] != RBRACKET
    decreases owner, 0, |items|
  {
    assert items[0] in owner.items;
    var first := Serialise(items[0], depth).value;
    var t := SerialiseItems(owner, items, depth).value + ([RBRACKET] + rest);
    if |items| == 1 {
      ParseUndoesPrint(items[0], depth, [RBRACKET] + rest);
      assert ([RBRACKET] + rest)[1..] == rest;
      assert DenoteItems(owner, items) == [Denote(items[0])];
    } else {
      var more := SerialiseItems(owner, items[1..], depth).value + ([RBRACKET] + rest);
      assert t == first + ([COMMA] + more);
      ParseUndoesPrint(items[0], depth, [COMMA] + more);
      ParsePrintedItems(owner, items[1..], depth, rest);
      assert ([COMMA] + more)[1..] == more;
    }
  }

  lemma ReadObject(body: Text, members: map<Text, Meaning>, rest: Text)
    requires body != [] && body[0] != RBRACE && ParseMembers(body) == Some((members, rest))
    ensures ParseValue([LBRACE] + body) == Some((MObj(members), rest))
  {
    assert ([LBRACE] + body)[1..] == body;
  }

  lemma PrintedObject(v: Json, depth: nat, rest: Text)
    requires v.Obj? && Serialise(v, depth).Ok?
    ensures SerialiseMembers(v, SortMembers(Defined(v.members)), depth + 1).Ok?
    ensures Serialise(v, depth).value + rest ==
            [LBRACE] + (SerialiseMembers(v, SortMembers(Defined(v.members)), depth + 1).value + ([RBRACE] + rest))
  {
    Regroup([LBRACE], SerialiseMembers(v, SortMembers(Defined(v.members)), depth + 1).value, [RBRACE], rest);
  }

  lemma Regroup(a: Text, b: Text, c: Text, d: Text)
    ensures a + b + c + d == a + (b + (c + d))
  {
  }

  lemma RegroupMember(key: Text, text: Text, a: Text, b: Text, c: Text)
    ensures key + [COLON] + text + a == key + ([COLON] + (text + a))
    ensures key + [COLON] + text + a + b + c == key + ([COLON] + (text + (a + (b + c))))
  {
  }

  lemma ReadEmptyObject(rest: Text)
    ensures ParseValue([LBRACE] + ([] + ([RBRACE] + rest))) == Some((MObj(map[]), rest))
  {
    assert ([LBRACE] + ([] + ([RBRACE] + rest)))[2..] == rest;
  }

  lemma {:induction false} ParseObject(v: Json, depth: nat, rest: Text)
    requires v.Obj? && IsValue(v) && Serialise(v, depth).Ok?
    ensures ParseValue(Serialise(v, depth).value + rest) == Some((Denote(v), rest))
    decreases v, 1, 0
  {
    var sorted := SortedForm(v);
    PrintedObject(v, depth, rest);
    if sorted == [] {
      ReadEmptyObject(rest);
    } else {
      ParsePrintedMembers(v, sorted, depth + 1, rest);
      ReadObject(SerialiseMembers(v, sorted, depth + 1).value + ([RBRACE] + rest), DenoteMembers(v, sorted), rest);
    }
  }

  /** The parser's step over one printed member. */
  lemma ReadMember(key: Text, text: Text, value: Meaning, tail: Text)
    requires tail != [] && ParseValue(text + tail) == Some((value, tail))
    ensures var t := Quote(key) + ([COLON] + (text + tail));
            && t[0] == QUOTE
            && (tail[0] == RBRACE ==> ParseMembers(t) == Some((map[key := value], tail[1..])))
            && (tail[0] == COMMA ==>
                  match ParseMembers(tail[1..])
                  case Some((more, rest)) => key !in more ==> ParseMembers(t) == Some((more[key := value], rest))
                  case None => true)
  {
    ParseQuoted(key, [COLON] + (text + tail));
    assert ([COLON] + (text + tail))[1..] == text + tail;
  }

  lemma PrintedMembers(owner: Json, ms: seq<Member>, depth: nat, rest: Text) returns (text: Text, tail: Text)
    requires owner.Obj? && ms != [] && forall x | x in ms :: x in owner.members
    requires SerialiseMembers(owner, ms, depth).Ok?
    ensures Serialise(ms[0].value, depth) == Ok(text)
    ensures SerialiseMembers(owner, ms, depth).value + ([RBRACE] + rest) == Quote(ms[0].key) + ([COLON] + (text + tail))
    ensures |ms| == 1 ==> tail == [RBRACE] + rest
    ensures |ms| > 1 ==>
              && SerialiseMembers(owner, ms[1..], depth).Ok?
              && tail == [COMMA] + (SerialiseMembers(owner, ms[1..], depth).value + ([RBRACE] + rest))
  {
    assert ms[0] in owner.members;
    text := Serialise(ms[0].value, depth).value;
    var key, close := Quote(ms[0].key), [RBRACE] + rest;
    if |ms| == 1 {
      RegroupMember(key, text, close, [], []);
    } else {
      RegroupMember(key, text, [COMMA], SerialiseMembers(owner, ms[1..], depth).value, close);
    }
    tail := if |ms| == 1 then [RBRACE] + rest
            else [COMMA] + (SerialiseMembers(owner, ms[1..], depth).value + ([RBRACE] + rest));
  }

  lemma {:induction false} ParsePrintedMembers(owner: Json, ms: seq<Member>, depth: nat, rest: Text)
    requires owner.Obj? && ms != [] && DistinctKeys(ms)
    requires forall x | x in ms :: x in owner.members && IsValue(x.value) && !x.value.Undefined?
    requires SerialiseMembers(owner, ms, depth).Ok?
    ensures var t := SerialiseMembers(owner, ms, depth).value + ([RBRACE] + rest);
            ParseMembers(t) == Some((DenoteMembers(owner, ms), rest)) && t != [] && t[0] == QUOTE
    decreases owner, 0, |ms|
  {
    assert ms[0] in owner.members;
    var text, tail := PrintedMembers(owner, ms, depth, rest);
    ParseUndoesPrint(ms[0].value, depth, tail);
    ReadMember(ms[0].key, text, Denote(ms[0].value), tail);
    if |ms| == 1 {
      assert tail[1..] == rest;
      assert DenoteMembers(owner, ms) == map[ms[0].key := Denote(ms[0].value)];
    } else {
      ParsePrintedMembers(owner, ms[1..], depth, rest);
      assert tail[1..] == SerialiseMembers(owner, ms[1..], depth).value + ([RBRACE] + rest);
      OtherKeys(owner, ms);
    }
  }

  lemma OtherKeys(owner: Json, ms: seq<Member>)
    requires owner.Obj? && (forall x | x in ms :: x in owner.members) && ms != [] && DistinctKeys(ms)
    ensures ms[0].key !in DenoteMembers(owner, ms[1..])
  {
    DenoteMembersAt(owner, ms[1..]);
    assert forall x | x in ms[1..] :: x.key != ms[0].key;
  }

  /** The round trip on whole texts. */
  lemma ParseSerialise(v: Json)
    requires IsValue(v) && Serialise(v, 0).Ok?
    ensures Parse(Serialise(v, 0).value) == Some(Denote(v))
  {
    ParseUndoesPrint(v, 0, []);
    assert Serialise(v, 0).value + [] == Serialise(v, 0).value;
  }

  /** Two values serialise to the same text exactly when they are equal up to the
      order of their members. */
  lemma CanonicalExactly(v: Json, w: Json)
    requires IsValue(v) && IsValue(w) && Serialise(v, 0).Ok?
    ensures Serialise(v, 0) == Serialise(w, 0) <==> Denote(v) == Denote(w)
  {
    ParseSerialise(v);
    if Serialise(v, 0) == Serialise(w, 0) {
      ParseSerialise(w);
    }
    if Denote(v) == Denote(w) {
      SameMeaningSameText(v, w, 0);
    }
  }

  // ---- the exact form of the text ----

  /** ASCII text. */
  function Ascii(s: string): (t: Text)
    requires forall i | 0 <= i < |s| :: s[i] as int < 0x80
    ensures |t| == |s|
  {
    seq(|s|, i requires 0 <= i < |s| => s[i] as int)
  }

  const HEX_DIGITS: Text := [
    0x30, 0x31, 0x32, 0x33, 0x34, 0x35, 0x36, 0x37, 0x38, 0x39, 0x61, 0x62, 0x63, 0x64, 0x65, 0x66]

  /** The units with a short escape, and the letter of each. */
  const SHORT_ESCAPES: map<Unit, Unit> := map[
    0x22 := 0x22, 0x5C := 0x5C, 0x08 := 0x62, 0x09 := 0x74, 0x0A := 0x6E, 0x0C := 0x66, 0x0D := 0x72]

  /** How one unit of a string is written: in two units when it has a short escape; in
      six, with lower-case hexadecimal digits, when it is another control or a surrogate
      that is not half of a pair; else as itself. */
  ghost predicate IsForm(s: Text, i: nat, piece: Text)
    requires i < |s|
  {
    var u := s[i];
    if u in SHORT_ESCAPES then piece == [0x5C, SHORT_ESCAPES[u]]
    else if u < 0x20 || (0xD800 <= u < 0xE000 && !HalfOfPair(s, i)) then
      piece == [0x5C, 0x75, HEX_DIGITS[u / 0x1000], HEX_DIGITS[u / 0x100 % 0x10], HEX_DIGITS[u / 0x10 % 0x10],
                HEX_DIGITS[u % 0x10]]
    else piece == [u]
  }

  /** A lead surrogate right in front of a trail, or the trail behind it. */
  ghost predicate HalfOfPair(s: Text, i: nat)
    requires i < |s|
  {
    || (0xD800 <= s[i] < 0xDC00 && i + 1 < |s| && 0xDC00 <= s[i + 1] < 0xE000)
    || (0xDC00 <= s[i] < 0xE000 && i > 0 && 0xD800 <= s[i - 1] < 0xDC00)
  }

  function Concat(pieces: seq<Text>): Text {
    if pieces == [] then [] else pieces[0] + Concat(pieces[1..])
  }

  lemma HexUnitIsDigit(d: nat)
    requires d < 16
    ensures HexUnit(d) == HEX_DIGITS[d]
  {
  }

  lemma FourDigits(u: Unit)
    ensures u / 16 / 16 / 16 == u / 0x1000 && u / 16 / 16 % 16 == u / 0x100 % 0x10
  {
    var n: int := u;
    var a, b, c := n / 16, n / 16 / 16, n / 16 / 16 / 16;
    assert n == 256 * b + (16 * (a % 16) + n % 16) && 0 <= 16 * (a % 16) + n % 16 < 256;
    assert n == 4096 * c + (256 * (b % 16) + 16 * (a % 16) + n % 16);
  }

  lemma HexForm(u: Unit)
    ensures HexEscape(u)
         == [0x5C, 0x75, HEX_DIGITS[u / 0x1000], HEX_DIGITS[u / 0x100 % 0x10], HEX_DIGITS[u / 0x10 % 0x10],
             HEX_DIGITS[u % 0x10]]
  {
    FourDigits(u);
    HexUnitIsDigit(u / 16 / 16 / 16);
    HexUnitIsDigit(u / 16 / 16 % 16);
    HexUnitIsDigit(u / 16 % 16);
    HexUnitIsDigit(u % 16);
  }

  lemma EscapeForm(s: Text, i: nat)
    requires i < |s|
    ensures IsForm(s, i, EscapeUnit(s[i], Paired(s, i)))
  {
    HexForm(s[i]);
    assert IsSurrogate(s[i]) ==> (Paired(s, i) <==> HalfOfPair(s, i));
  }

  lemma {:induction false} EscapePieces(s: Text, i: nat, pieces: seq<Text>)
    requires i <= |s| == |pieces|
    requires forall k | 0 <= k < |s| :: pieces[k] == EscapeUnit(s[k], Paired(s, k))
    ensures EscapeFrom(s, i) == Concat(pieces[i..])
    decreases |s| - i
  {
    if i < |s| {
      EscapePieces(s, i + 1, pieces);
      assert pieces[i..][1..] == pieces[i + 1..];
    }
  }

  /** A string is printed as a quote, the form of each of its units, and a quote. */
  lemma StringText(s: Text) returns (pieces: seq<Text>)
    ensures |pieces| == |s| && forall i | 0 <= i < |s| :: IsForm(s, i, pieces[i])
    ensures Serialise(Str(s), 0) == Ok([0x22] + Concat(pieces) + [0x22])
  {
    pieces := seq(|s|, k requires 0 <= k < |s| => EscapeUnit(s[k], Paired(s, k)));
    EscapePieces(s, 0, pieces);
    assert pieces[0..] == pieces;
    forall i | 0 <= i < |s| ensures IsForm(s, i, pieces[i]) {
      EscapeForm(s, i);
    }
  }

  /** The texts one after the other, with commas between them. */
  function Listed(texts: seq<Text>): Text {
    if texts == [] then []
    else if |texts| == 1 then texts[0]
    else texts[0] + [0x2C] + Listed(texts[1..])
  }

  lemma {:induction false} ItemsText(owner: Json, items: seq<Json>, depth: nat, texts: seq<Text>)
    requires owner.Arr? && forall x | x in items :: x in owner.items
    requires |texts| == |items| && forall i | 0 <= i < |items| :: Serialise(items[i], depth) == Ok(texts[i])
    ensures SerialiseItems(owner, items, depth) == Ok(Listed(texts))
  {
    if items != [] {
      assert items[0] in owner.items;
      ItemsText(owner, items[1..], depth, texts[1..]);
    }
  }

  /** An array is printed as its elements' texts between brackets, with commas and
      nothing else. */
  lemma ArrayText(items: seq<Json>, depth: nat, texts: seq<Text>)
    requires depth <= 128 && |texts| == |items|
    requires forall i | 0 <= i < |items| :: Serialise(items[i], depth + 1) == Ok(texts[i])
    ensures Serialise(Arr(items), depth) == Ok([0x5B] + Listed(texts) + [0x5D])
  {
    ItemsText(Arr(items), items, depth + 1, texts);
  }

  ghost predicate PrintsAs(m: Member, depth: nat, text: Text) {
    exists value :: Serialise(m.value, depth) == Ok(value) && text == Quote(m.key) + [0x3A] + value
  }

  lemma {:induction false} MembersText(owner: Json, ms: seq<Member>, depth: nat, texts: seq<Text>)
    requires owner.Obj? && forall x | x in ms :: x in owner.members
    requires |texts| == |ms| && forall i | 0 <= i < |ms| :: PrintsAs(ms[i], depth, texts[i])
    ensures SerialiseMembers(owner, ms, depth) == Ok(Listed(texts))
  {
    if ms != [] {
      assert ms[0] in owner.members && PrintsAs(ms[0], depth, texts[0]);
      MembersText(owner, ms[1..], depth, texts[1..]);
    }
  }

  /** An object is printed as its defined members in ascending key order between braces,
      each as a string, a colon and the text of its value, with commas and nothing
      else. */
  lemma ObjectText(members: seq<Member>, depth: nat, sorted: seq<Member>, texts: seq<Text>)
    requires depth <= 128 && DistinctKeys(members) && Ascending(sorted)
    requires forall x :: x in sorted <==> x in members && !x.value.Undefined?
    requires |texts| == |sorted| && forall i | 0 <= i < |sorted| :: PrintsAs(sorted[i], depth + 1, texts[i])
    ensures Serialise(Obj(members), depth) == Ok([0x7B] + Listed(texts) + [0x7D])
  {
    SortIsUnique(members, sorted);
    MembersText(Obj(members), sorted, depth + 1, texts);
  }

  /** The literals. */
  lemma LiteralText()
    ensures Serialise(Null, 0) == Serialise(Undefined, 0) == Serialise(Foreign, 0) == Ok(Ascii("null"))
    ensures Serialise(Bool(true), 0) == Ok(Ascii("true")) && Serialise(Bool(false), 0) == Ok(Ascii("false"))
    ensures forall token :: Serialise(Num(token), 0) == Ok(token)
  {
    assert NULL == Ascii("null") && TRUE == Ascii("true") && FALSE == Ascii("false");
  }
}
