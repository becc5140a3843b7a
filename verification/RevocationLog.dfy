/**
 The file-backed revocation store: an append-only text log with one decimal index
 a line, and the in-memory set that replaying the log rebuilds.
 */
module RevocationLog {
  import opened Wrappers
  import opened Digits
  import opened Segments
  import opened Utf8

  /** One more than the largest 64-bit index. */
  const INDEX_LIMIT: nat := 0x1_0000_0000_0000_0000

  /** A line of this many bytes or more makes the load fail. */
  const MAX_LINE := 65536

  // ---- decimal numerals ----

  predicate IsDigit(c: char) {
    '0' <= c <= '9'
  }

  predicate AllDigits(s: string) {
    forall i | 0 <= i < |s| :: IsDigit(s[i])
  }

  function DigitsOf(s: string): (ds: seq<nat>)
    requires AllDigits(s)
    ensures |ds| == |s| && IsNumeral(ds, 10)
  {
    seq(|s|, i requires 0 <= i < |s| => s[i] as int - '0' as int)
  }

  function DigitChar(d: nat): char
    requires d < 10
  {
    ('0' as int + d) as char
  }

  /** Base 10, 64 bits: fails on anything but digits and on overflow. */
  function ParseUint(s: string): Option<nat> {
    if s == "" || !AllDigits(s) then None
    else
      var n := Value(DigitsOf(s), 10);
      if n < INDEX_LIMIT then Some(n) else None
  }

  function FormatUint(n: nat): (s: string)
    ensures s != "" && AllDigits(s)
  {
    if n == 0 then "0" else
      var ds := Numeral(n, 10);
      seq(|ds|, i requires 0 <= i < |ds| => DigitChar(ds[i]))
  }

  lemma FormattedDigits(n: nat)
    ensures Value(DigitsOf(FormatUint(n)), 10) == n
  {
    if n == 0 {
      assert DigitsOf("0") == [] + [0];
      ValueSnoc([], 0, 10);
    } else {
      assert DigitsOf(FormatUint(n)) == Numeral(n, 10);
      ValueNumeral(n, 10);
    }
  }

  /** Printing and parsing is the identity on all 64-bit indices. */
  lemma ParseFormat(n: nat)
    requires n < INDEX_LIMIT
    ensures ParseUint(FormatUint(n)) == Some(n)
  {
    FormattedDigits(n);
  }

  // ---- lines ----

  /** The white space that is trimmed from both ends of a line. */
  predicate IsSpace(c: char) {
    var n := c as int;
    || 9 <= n <= 13 || n == 0x20 || n == 0x85 || n == 0xA0 || n == 0x1680 || 0x2000 <= n <= 0x200A
    || n == 0x2028 || n == 0x2029 || n == 0x202F || n == 0x205F || n == 0x3000
  }

  function TrimLeft(s: string): (t: string)
    ensures t != "" ==> !IsSpace(t[0])
  {
    if s != "" && IsSpace(s[0]) then TrimLeft(s[1..]) else s
  }

  function TrimRight(s: string): string {
    if s != "" && IsSpace(s[|s| - 1]) then TrimRight(s[..|s| - 1]) else s
  }

  /** Blank lines, comments and malformed lines yield nothing. */
  function ParseLine(line: string): Option<nat> {
    var t := TrimRight(TrimLeft(line));
    if t == "" || t[0] == '#' then None else ParseUint(t)
  }

  predicate AllSpace(s: string) {
    forall i | 0 <= i < |s| :: IsSpace(s[i])
  }

  lemma {:induction false} TrimLeftCuts(s: string) returns (cut: nat)
    ensures cut <= |s| && AllSpace(s[..cut]) && TrimLeft(s) == s[cut..]
  {
    cut := 0;
    if s != "" && IsSpace(s[0]) {
      var rest := TrimLeftCuts(s[1..]);
      cut := rest + 1;
      assert s[..cut] == [s[0]] + s[1..][..rest];
    }
  }

  lemma {:induction false} TrimRightCuts(s: string) returns (cut: nat)
    ensures cut <= |s| && AllSpace(s[cut..]) && TrimRight(s) == s[..cut]
    ensures cut > 0 ==> !IsSpace(s[cut - 1])
  {
    cut := |s|;
    if s != "" && IsSpace(s[|s| - 1]) {
      cut := TrimRightCuts(s[..|s| - 1]);
      assert s[cut..] == s[..|s| - 1][cut..] + [s[|s| - 1]];
    }
  }

  lemma {:induction false} TrimLeftOf(before: string, t: string)
    requires AllSpace(before) && t != "" && !IsSpace(t[0])
    ensures TrimLeft(before + t) == t
  {
    if before == "" {
      assert before + t == t;
    } else {
      TrimLeftOf(before[1..], t);
      assert (before + t)[1..] == before[1..] + t;
    }
  }

  lemma {:induction false} TrimRightOf(t: string, after: string)
    requires AllSpace(after) && t != "" && !IsSpace(t[|t| - 1])
    ensures TrimRight(t + after) == t
  {
    if after == "" {
      assert t + after == t;
    } else {
      var n := |after| - 1;
      TrimRightOf(t, after[..n]);
      assert (t + after)[..|t + after| - 1] == t + after[..n];
    }
  }

  /** A line yields an index exactly when it is that index in decimal digits with nothing
      but white space on either side. */
  lemma LineExactly(line: string, n: nat)
    ensures ParseLine(line) == Some(n) <==>
            exists before, word, after :: line == before + word + after && IsWord(before, word, after, n)
  {
    var left := TrimLeftCuts(line);
    var right := TrimRightCuts(line[left..]);
    if ParseLine(line) == Some(n) {
      var before, word, after := line[..left], line[left..][..right], line[left..][right..];
      assert line == before + word + after && IsWord(before, word, after, n);
    }
    if before, word, after :| line == before + word + after && IsWord(before, word, after, n) {
      assert IsDigit(word[0]) && IsDigit(word[|word| - 1]);
      assert line == before + (word + after);
      TrimLeftOf(before, word + after);
      TrimRightOf(word, after);
    }
  }

  predicate IsWord(before: string, word: string, after: string, n: nat) {
    && AllSpace(before) && AllSpace(after)
    && word != "" && AllDigits(word) && Value(DigitsOf(word), 10) == n < 0x1_0000_0000_0000_0000
  }

  ghost function IndicesOf(lines: seq<string>): set<nat> {
    set i | 0 <= i < |lines| && ParseLine(lines[i]).Some? :: ParseLine(lines[i]).value
  }

  predicate LinesShort(lines: seq<string>) {
    forall i | 0 <= i < |lines| :: Utf8Length(lines[i]) < MAX_LINE
  }

  /** What replaying a log yields, or none when a line is too long. */
  ghost function Load(contents: string): Option<set<nat>> {
    var lines := Split(contents, '\n');
    if LinesShort(lines) then Some(IndicesOf(lines)) else None
  }

  function Line(n: nat): string {
    FormatUint(n) + "\n"
  }

  /** The part of a line that reaches the file. */
  function Reached(n: nat, written: nat): string {
    if written < |Line(n)| then Line(n)[..written] else Line(n)
  }

  predicate IsWhole(n: nat, written: nat) {
    written >= |Line(n)|
  }

  // ---- the store ----

  /** The file on disk. */
  class Log {
    var contents: string

    constructor (contents: string)
      ensures this.contents == contents
    {
      this.contents := contents;
    }
  }

  class Store {
    var revoked: set<nat>
    const log: Log

    constructor (log: Log, revoked: set<nat>)
      ensures this.log == log && this.revoked == revoked
    {
      this.log, this.revoked := log, revoked;
    }

    /** Appends the line, syncs, then updates the set. `written` is how many characters
        of the line reach the file, and `synced` the outcome of the sync. */
    method Revoke(index: nat, written: nat, synced: bool) returns (acknowledged: bool)
      modifies this, log
      ensures acknowledged == (IsWhole(index, written) && synced)
      ensures log.contents == old(log.contents) + Reached(index, written)
      ensures revoked == if acknowledged then old(revoked) + {index} else old(revoked)
    {
      log.contents := log.contents + Reached(index, written);
      if written < |Line(index)| {
        return false;
      }
      if !synced {
        return false;
      }
      revoked := revoked + {index};
      return true;
    }

    method IsRevoked(index: nat) returns (r: bool)
      ensures r == (index in revoked)
    {
      r := index in revoked;
    }
  }

  /** Replays the log into a set, line by line. */
  method LoadExisting(log: Log) returns (r: Option<set<nat>>)
    ensures r == Load(log.contents)
  {
    var lines := Split(log.contents, '\n');
    var revoked: set<nat> := {};
    for k := 0 to |lines|
      invariant LinesShort(lines[..k]) && revoked == IndicesOf(lines[..k])
    {
      if Utf8Length(lines[k]) >= MAX_LINE {
        return None;
      }
      IndicesSnoc(lines[..k], lines[k]);
      assert lines[..k + 1] == lines[..k] + [lines[k]];
      var idx := ParseLine(lines[k]);
      if idx.Some? {
        revoked := revoked + {idx.value};
      }
    }
    assert lines[..|lines|] == lines;
    return Some(revoked);
  }

  /** Opens a store on a log; fails exactly when the log cannot be replayed. */
  method Open(log: Log) returns (store: Store?)
    ensures store == null <==> Load(log.contents).None?
    ensures store != null ==> fresh(store) && store.log == log && store.revoked == Load(log.contents).value
    ensures log.contents == old(log.contents)
  {
    var revoked := LoadExisting(log);
    if revoked.None? {
      return null;
    }
    store := new Store(log, revoked.value);
  }

  lemma IndicesConcat(a: seq<string>, b: seq<string>)
    ensures IndicesOf(a + b) == IndicesOf(a) + IndicesOf(b)
  {
    var c := a + b;
    forall n | n in IndicesOf(a) ensures n in IndicesOf(c) {
      var i :| 0 <= i < |a| && ParseLine(a[i]) == Some(n);
      assert c[i] == a[i];
    }
    forall n | n in IndicesOf(b) ensures n in IndicesOf(c) {
      var i :| 0 <= i < |b| && ParseLine(b[i]) == Some(n);
      assert c[|a| + i] == b[i];
    }
  }

  lemma IndicesSnoc(lines: seq<string>, line: string)
    ensures IndicesOf(lines + [line]) ==
            IndicesOf(lines) + (if ParseLine(line).Some? then {ParseLine(line).value} else {})
  {
    IndicesConcat(lines, [line]);
    assert [line][0] == line;
  }

  // ---- appending a line to any log ----

  /** What follows the last newline. */
  function Tail(contents: string): string {
    var lines := Split(contents, '\n');
    lines[|lines| - 1]
  }

  function Complete(contents: string): seq<string> {
    var lines := Split(contents, '\n');
    lines[..|lines| - 1]
  }

  lemma NoNewline(n: nat)
    ensures '\n' !in FormatUint(n)
  {
  }

  /** The appended numeral joins whatever the last newline left over. */
  lemma {:induction false} AppendedLines(contents: string, word: string)
    requires '\n' !in word
    ensures Split(contents + word, '\n') == Complete(contents) + [Tail(contents) + word]
  {
    if contents == "" {
      SplitWithoutSep(word, '\n');
      assert contents + word == word;
    } else {
      AppendedLines(contents[1..], word);
      SplitCons(contents[0], contents[1..] + word, '\n');
      assert contents + word == [contents[0]] + (contents[1..] + word);
      PushFrontLast(contents[0], Split(contents[1..], '\n'), word);
    }
  }

  lemma PushFrontLast(c: char, segs: seq<string>, word: string)
    requires |segs| > 0
    ensures var n := |segs| - 1;
            var p := PushFront(c, segs, '\n');
            PushFront(c, segs[..n] + [segs[n] + word], '\n') == p[..|p| - 1] + [p[|p| - 1] + word]
  {
    var n := |segs| - 1;
    if c != '\n' && n == 0 {
      assert [c] + (segs[0] + word) == [c] + segs[0] + word;
    }
  }

  lemma AppendedLog(contents: string, n: nat)
    ensures Split(contents + Line(n), '\n') == Complete(contents) + [Tail(contents) + FormatUint(n)] + [""]
  {
    NoNewline(n);
    AppendedLines(contents, FormatUint(n));
    SplitConcat(contents + FormatUint(n), "", '\n');
    SplitWithoutSep("", '\n');
    assert contents + Line(n) == contents + FormatUint(n) + ['\n'] + "";
  }

  /** A log without an unterminated last line. */
  predicate Terminated(contents: string) {
    contents == "" || contents[|contents| - 1] == '\n'
  }

  lemma TerminatedTail(contents: string)
    requires Terminated(contents)
    ensures Tail(contents) == ""
  {
    SplitWithoutSep("", '\n');
    if contents != "" {
      var body := contents[..|contents| - 1];
      assert contents == body + ['\n'] + "";
      SplitConcat(body, "", '\n');
    }
  }

  lemma {:induction false} FormattedStays(n: nat)
    ensures TrimRight(TrimLeft(FormatUint(n))) == FormatUint(n)
  {
    var s := FormatUint(n);
    assert IsDigit(s[0]) && IsDigit(s[|s| - 1]);
  }

  lemma FormattedLineParses(n: nat)
    requires n < INDEX_LIMIT
    ensures ParseLine(FormatUint(n)) == Some(n)
  {
    FormattedStays(n);
    ParseFormat(n);
    assert IsDigit(FormatUint(n)[0]);
  }

  lemma {:induction false} NumeralShort(n: nat, bound: nat, k: nat)
    requires n < Power(k) && bound == k
    ensures |Numeral(n, 10)| <= bound
  {
    if n > 0 {
      DivMod(n, 10);
      NumeralShort(n / 10, k - 1, k - 1);
    }
  }

  function Power(k: nat): nat {
    if k == 0 then 1 else 10 * Power(k - 1)
  }

  lemma FormattedShort(n: nat)
    requires n < INDEX_LIMIT
    ensures Utf8Length(FormatUint(n)) == |FormatUint(n)| <= 20
  {
    AsciiLength(FormatUint(n));
    assert Power(5) == 100000;
    assert Power(10) == 10000000000;
    assert Power(15) == 1000000000000000;
    assert Power(20) == 100000000000000000000;
    NumeralShort(n, 20, 20);
  }

  /** On a terminated log one more line adds exactly its index. */
  lemma RevokeExtendsLoad(contents: string, n: nat)
    requires n < INDEX_LIMIT && Terminated(contents) && Load(contents).Some?
    ensures Terminated(contents + Line(n))
    ensures Load(contents + Line(n)) == Some(Load(contents).value + {n})
  {
    AppendedLog(contents, n);
    TerminatedTail(contents);
    FormattedLineParses(n);
    FormattedShort(n);
    LineTerminates(contents, n);
    var complete, word := Complete(contents), FormatUint(n);
    assert Split(contents, '\n') == complete + [""] by {
      LastLine(contents);
    }
    assert Split(contents + Line(n), '\n') == complete + [word] + [""] by {
      assert "" + word == word;
    }
    ExtraLine(complete, word, n);
  }

  lemma LineTerminates(contents: string, n: nat)
    ensures Terminated(contents + Line(n))
  {
    var s := contents + Line(n);
    assert s[|s| - 1] == Line(n)[|Line(n)| - 1];
  }

  lemma LastLine(contents: string)
    ensures Split(contents, '\n') == Complete(contents) + [Tail(contents)]
  {
  }

  lemma ExtraLine(complete: seq<string>, word: string, n: nat)
    requires LinesShort(complete + [""]) && Utf8Length(word) < MAX_LINE && ParseLine(word) == Some(n)
    ensures LinesShort(complete + [word] + [""])
    ensures IndicesOf(complete + [word] + [""]) == IndicesOf(complete + [""]) + {n}
  {
    IndicesSnoc(complete, "");
    IndicesSnoc(complete, word);
    IndicesSnoc(complete + [word], "");
    assert forall i | 0 <= i < |complete| :: complete[i] == (complete + [""])[i];
  }

  // ---- any sequence of operations ----

  datatype Op = Revoke(index: nat, written: nat, synced: bool) | Reopen

  /** The log, the set in memory, and what has been written whole and acknowledged. */
  datatype State = State(contents: string, revoked: set<nat>, wrote: set<nat>, acknowledged: set<nat>)

  ghost function Apply(s: State, op: Op): State {
    match op
    case Revoke(n, written, synced) =>
      var contents := s.contents + Reached(n, written);
      if !IsWhole(n, written) then s.(contents := contents)
      else if !synced then s.(contents := contents, wrote := s.wrote + {n})
      else State(contents, s.revoked + {n}, s.wrote + {n}, s.acknowledged + {n})
    case Reopen =>
      if Load(s.contents).Some? then s.(revoked := Load(s.contents).value) else s
  }

  /** Every append writes the whole line or nothing. */
  ghost predicate WholeWrites(ops: seq<Op>) {
    forall i | 0 <= i < |ops| && ops[i].Revoke? ::
      ops[i].index < INDEX_LIMIT && (ops[i].written == 0 || IsWhole(ops[i].index, ops[i].written))
  }

  ghost function Run(contents: string, ops: seq<Op>): State
    requires Load(contents).Some?
  {
    if ops == [] then State(contents, Load(contents).value, {}, {})
    else Apply(Run(contents, ops[..|ops| - 1]), ops[|ops| - 1])
  }

  /** Starting from a terminated log, after any sequence of revokes, failed writes
      that leave nothing behind, failed syncs and reopens: the log can be replayed, the replay yields what the
      log held at the start and the written indices and nothing else, and it
      includes every index ever acknowledged, as does the set in memory. */
  lemma {:induction false} ReplayIsExact(contents: string, ops: seq<Op>)
    requires Terminated(contents) && Load(contents).Some?
    requires WholeWrites(ops)
    ensures var s := Run(contents, ops);
            && Terminated(s.contents)
            && Load(s.contents) == Some(Load(contents).value + s.wrote)
            && s.acknowledged <= s.wrote
            && Load(contents).value + s.acknowledged <= s.revoked <= Load(contents).value + s.wrote
  {
    assert Load(contents).value + {} == Load(contents).value;
    if ops != [] {
      var init, op := ops[..|ops| - 1], ops[|ops| - 1];
      ReplayIsExact(contents, init);
      var s := Run(contents, init);
      if op.Revoke? && op.written == 0 {
        assert s.contents + Reached(op.index, 0) == s.contents;
      } else if op.Revoke? {
        RevokeExtendsLoad(s.contents, op.index);
        assert Load(contents).value + s.wrote + {op.index} == Load(contents).value + (s.wrote + {op.index});
      }
    }
  }

  // ---- logs with an unterminated last line ----

  /** Leading white space and then nothing but zeros. */
  predicate Harmless(tail: string) {
    forall i | 0 <= i < |TrimLeft(tail)| :: TrimLeft(tail)[i] == '0'
  }

  lemma {:induction false} TrimLeftConcat(a: string, b: string)
    requires b != "" && !IsSpace(b[0])
    ensures TrimLeft(a + b) == TrimLeft(a) + b
  {
    if a == "" {
      assert a + b == b;
    } else if IsSpace(a[0]) {
      TrimLeftConcat(a[1..], b);
      assert (a + b)[1..] == a[1..] + b;
    }
  }

  lemma {:induction false} ValueGrows(a: seq<nat>, b: seq<nat>)
    ensures Value(a + b, 10) >= Value(b, 10)
    ensures Value(a + b, 10) == Value(b, 10) <==> Value(a, 10) == 0
  {
    if b == [] {
      assert a + b == a;
    } else {
      var init, last := b[..|b| - 1], b[|b| - 1];
      ValueGrows(a, init);
      assert a + b == (a + init) + [last];
      ValueSnoc(a + init, last, 10);
    }
  }

  lemma {:induction false} ValueOfZeros(ds: seq<nat>)
    ensures Value(ds, 10) == 0 <==> forall i | 0 <= i < |ds| :: ds[i] == 0
  {
    if ds != [] {
      ValueOfZeros(ds[..|ds| - 1]);
    }
  }

  /** The joined line still reads as the index exactly when the left-over tail is
      harmless. */
  lemma JoinedLineParses(tail: string, n: nat)
    requires n < INDEX_LIMIT
    ensures ParseLine(tail + FormatUint(n)) == Some(n) <==> Harmless(tail)
  {
    var word := FormatUint(n);
    var u := TrimLeft(tail);
    var t := u + word;
    assert IsDigit(word[0]) && IsDigit(word[|word| - 1]);
    TrimLeftConcat(tail, word);
    assert t[|t| - 1] == word[|word| - 1];
    assert TrimRight(t) == t;
    PaddedNumeral(u, n);
    if t[0] == '#' {
      assert !IsDigit(t[0]);
    }
  }

  /** Digits in front of a printed index leave its value alone exactly when they
      are zeros; anything else in front is not a numeral or a larger one. */
  lemma PaddedNumeral(u: string, n: nat)
    requires n < INDEX_LIMIT
    ensures ParseUint(u + FormatUint(n)) == Some(n) <==> forall i | 0 <= i < |u| :: u[i] == '0'
  {
    var word := FormatUint(n);
    var t := u + word;
    if AllDigits(t) {
      assert forall i | 0 <= i < |u| :: u[i] == t[i];
      assert DigitsOf(t) == DigitsOf(u) + DigitsOf(word);
      ValueGrows(DigitsOf(u), DigitsOf(word));
      ValueOfZeros(DigitsOf(u));
      FormattedDigits(n);
      ZeroDigits(u);
    }
  }

  lemma ZeroDigits(u: string)
    requires AllDigits(u)
    ensures (forall i | 0 <= i < |u| :: u[i] == '0') <==> (forall i | 0 <= i < |u| :: DigitsOf(u)[i] == 0)
  {
    forall i | 0 <= i < |u| ensures u[i] == '0' <==> DigitsOf(u)[i] == 0 {
    }
  }

  /** The digits among the characters that reach the file. */
  function DigitsReached(n: nat, written: nat): string {
    if written < |FormatUint(n)| then FormatUint(n)[..written] else FormatUint(n)
  }

  /** The last line stays below the limit with these digits behind it. */
  predicate Fits(contents: string, n: nat, written: nat) {
    Utf8Length(Tail(contents)) + |DigitsReached(n, written)| < MAX_LINE
  }

  lemma LoadsExactly(contents: string)
    ensures Load(contents).Some? <==> LinesShort(Complete(contents)) && Utf8Length(Tail(contents)) < MAX_LINE
  {
    ShortLinesSnoc(Complete(contents), Tail(contents));
    LastLine(contents);
  }

  lemma ShortLinesSnoc(lines: seq<string>, last: string)
    ensures LinesShort(lines + [last]) <==> LinesShort(lines) && Utf8Length(last) < MAX_LINE
  {
    var all := lines + [last];
    if LinesShort(all) {
      assert forall i | 0 <= i < |lines| :: lines[i] == all[i];
      assert all[|lines|] == last;
    }
  }

  /** An append, whole or short, leaves a log that can be replayed exactly when it could
      be before and the joined line is below the limit. */
  lemma AppendLoadsExactly(contents: string, n: nat, written: nat)
    ensures Load(contents + Reached(n, written)).Some? <==> Load(contents).Some? && Fits(contents, n, written)
  {
    var complete, joined := Complete(contents), Tail(contents) + DigitsReached(n, written);
    LoadsExactly(contents);
    LengthConcat(Tail(contents), DigitsReached(n, written));
    AsciiLength(DigitsReached(n, written));
    ShortLinesSnoc(complete, joined);
    if IsWhole(n, written) {
      AppendedLog(contents, n);
      ShortLinesSnoc(complete + [joined], "");
    } else {
      assert Reached(n, written) == DigitsReached(n, written);
      NoNewline(n);
      AppendedLines(contents, DigitsReached(n, written));
    }
  }

  /** On any log that can be replayed: after a whole append a replay succeeds and finds
      the index exactly when the joined line is below the limit, and a complete line has
      the index already or what follows the last newline is harmless. A log whose last
      line was cut short need not keep the promise; one that is terminated always does. */
  lemma RevokeSurvivesReplay(contents: string, n: nat)
    requires n < INDEX_LIMIT && Load(contents).Some?
    ensures (Load(contents + Line(n)).Some? && n in Load(contents + Line(n)).value) <==>
            && Utf8Length(Tail(contents)) + |FormatUint(n)| < MAX_LINE
            && (n in IndicesOf(Complete(contents)) || Harmless(Tail(contents)))
  {
    AppendLoadsExactly(contents, n, |Line(n)|);
    AppendedLog(contents, n);
    CompleteAfterLine(contents, n);
    IndicesSnoc(Complete(contents) + [Tail(contents) + FormatUint(n)], "");
    assert ParseLine("").None?;
  }

  lemma CompleteAfterLine(contents: string, n: nat)
    requires n < INDEX_LIMIT
    ensures Complete(contents + Line(n)) == Complete(contents) + [Tail(contents) + FormatUint(n)]
    ensures n in IndicesOf(Complete(contents + Line(n))) <==> n in IndicesOf(Complete(contents)) || Harmless(Tail(contents))
  {
    AppendedLog(contents, n);
    JoinedLineParses(Tail(contents), n);
    IndicesSnoc(Complete(contents), Tail(contents) + FormatUint(n));
  }

  // ---- runs with short writes ----

  /** No append ever changes a complete line. */
  lemma CompleteGrows(contents: string, more: string)
    ensures Complete(contents) <= Complete(contents + more)
    ensures IndicesOf(Complete(contents)) <= IndicesOf(Complete(contents + more))
  {
    CompleteIsPrefix(contents, more);
    var a, b := Complete(contents), Complete(contents + more);
    assert b == a + b[|a|..];
    IndicesConcat(a, b[|a|..]);
  }

  lemma {:induction false} CompleteIsPrefix(contents: string, more: string)
    ensures Complete(contents) <= Complete(contents + more)
  {
    JoinedWith(contents, more);
    LastLine(contents + more);
    var all, complete := Split(contents + more, '\n'), Complete(contents);
    assert |complete| < |all| && all[..|complete|] == complete;
    assert all[..|all| - 1][..|complete|] == all[..|complete|];
  }

  /** Text behind the last newline is split together with it. */
  lemma {:induction false} JoinedWith(contents: string, more: string)
    ensures Split(contents + more, '\n') == Complete(contents) + Split(Tail(contents) + more, '\n')
    decreases |Split(contents, '\n')|
  {
    var lines := Split(contents, '\n');
    JoinSplit(contents, '\n');
    if |lines| == 1 {
      assert contents == lines[0] && Complete(contents) == [];
    } else {
      var front := lines[..|lines| - 1];
      assert lines == front + [Tail(contents)];
      JoinConcat(front, [Tail(contents)], '\n');
      SplitIsSepFree(contents, '\n');
      SplitJoinFree(front, '\n');
      SplitConcat(Join(front, '\n'), Tail(contents) + more, '\n');
      assert contents + more == Join(front, '\n') + ['\n'] + (Tail(contents) + more);
    }
  }

  lemma {:induction false} RunOnlyAppends(contents: string, ops: seq<Op>, k: nat) returns (more: string)
    requires Load(contents).Some? && k <= |ops|
    ensures Run(contents, ops).contents == Run(contents, ops[..k]).contents + more
    decreases |ops|
  {
    if k == |ops| {
      assert ops[..k] == ops;
      more := "";
    } else {
      var init, op := ops[..|ops| - 1], ops[|ops| - 1];
      assert init[..k] == ops[..k];
      more := RunOnlyAppends(contents, init, k);
      if op.Revoke? {
        var start := Run(contents, ops[..k]).contents;
        assert start + more + Reached(op.index, op.written) == start + (more + Reached(op.index, op.written));
        more := more + Reached(op.index, op.written);
      }
    }
  }

  /** Every append of the run finds room on the last line as it stands then. */
  ghost predicate AllFit(contents: string, ops: seq<Op>)
    requires Load(contents).Some?
  {
    ops == [] ||
    var init, op := ops[..|ops| - 1], ops[|ops| - 1];
    AllFit(contents, init) && (op.Revoke? ==> Fits(Run(contents, init).contents, op.index, op.written))
  }

  /** In every run, short writes and all: the log can be replayed at the end exactly
      when each append found room on the last line. */
  lemma {:induction false} RunLoadsExactly(contents: string, ops: seq<Op>)
    requires Load(contents).Some?
    ensures Load(Run(contents, ops).contents).Some? <==> AllFit(contents, ops)
    decreases |ops|
  {
    if ops != [] {
      var init, op := ops[..|ops| - 1], ops[|ops| - 1];
      RunLoadsExactly(contents, init);
      OpLoads(Run(contents, init), op);
    }
  }

  lemma OpLoads(s: State, op: Op)
    ensures Load(Apply(s, op).contents).Some? <==>
            Load(s.contents).Some? && (op.Revoke? ==> Fits(s.contents, op.index, op.written))
  {
    if op.Revoke? {
      AppendLoadsExactly(s.contents, op.index, op.written);
    }
  }

  /** In every run, short writes and all: an index that was written whole where the
      tail of the log was harmless is found by every later replay that succeeds. */
  lemma HarmlessWritesSurvive(contents: string, ops: seq<Op>, k: nat)
    requires Load(contents).Some? && k < |ops| && ops[k].Revoke?
    requires ops[k].index < INDEX_LIMIT && IsWhole(ops[k].index, ops[k].written)
    requires Harmless(Tail(Run(contents, ops[..k]).contents))
    ensures var replay := Load(Run(contents, ops).contents);
            replay.Some? ==> ops[k].index in replay.value
  {
    var before, n := Run(contents, ops[..k]).contents, ops[k].index;
    var final := Run(contents, ops).contents;
    assert ops[..k + 1][..k] == ops[..k];
    assert Run(contents, ops[..k + 1]).contents == before + Line(n);
    CompleteAfterLine(before, n);
    var more := RunOnlyAppends(contents, ops, k + 1);
    CompleteGrows(before + Line(n), more);
    LastLine(final);
    IndicesConcat(Complete(final), [Tail(final)]);
  }

  /** A numeral that was cut short reads as the number its digits spell: a replay can
      find an index that nobody revoked. */
  lemma CutNumeralReads(contents: string, n: nat, k: nat)
    requires n < INDEX_LIMIT && Terminated(contents) && Load(contents).Some? && 0 < k < |FormatUint(n)|
    ensures AllDigits(FormatUint(n)[..k])
    ensures Load(contents + Reached(n, k)) == Some(Load(contents).value + {Value(DigitsOf(FormatUint(n)[..k]), 10)})
  {
    var word := FormatUint(n)[..k];
    assert Reached(n, k) == word;
    AsciiLength(word);
    FormattedShort(n);
    DigitsParse(word);
    CutIsSmaller(n, k);
    LastWord(contents, word, Value(DigitsOf(word), 10));
  }

  lemma CutIsSmaller(n: nat, k: nat)
    requires k <= |FormatUint(n)|
    ensures AllDigits(FormatUint(n)[..k]) && Value(DigitsOf(FormatUint(n)[..k]), 10) <= n
  {
    var ds := DigitsOf(FormatUint(n));
    FormattedDigits(n);
    ValueOfFront(ds[..k], ds[k..]);
    assert ds == ds[..k] + ds[k..];
    assert DigitsOf(FormatUint(n)[..k]) == ds[..k];
  }

  lemma {:induction false} ValueOfFront(a: seq<nat>, b: seq<nat>)
    ensures Value(a + b, 10) >= Value(a, 10)
  {
    if b == [] {
      assert a + b == a;
    } else {
      var init, last := b[..|b| - 1], b[|b| - 1];
      ValueOfFront(a, init);
      assert a + b == (a + init) + [last];
      ValueSnoc(a + init, last, 10);
    }
  }

  lemma LastWord(contents: string, word: string, n: nat)
    requires Terminated(contents) && Load(contents).Some? && '\n' !in word
    requires Utf8Length(word) < MAX_LINE && ParseLine(word) == Some(n)
    ensures Load(contents + word) == Some(Load(contents).value + {n})
  {
    AppendedLines(contents, word);
    TerminatedTail(contents);
    LastLine(contents);
    assert Split(contents, '\n') == Complete(contents) + [""];
    assert Tail(contents) == "" && Tail(contents) + word == word;
    assert Split(contents + word, '\n') == Complete(contents) + [word];
    WordForNothing(Complete(contents), word, n);
  }

  lemma WordForNothing(complete: seq<string>, word: string, n: nat)
    requires LinesShort(complete + [""]) && Utf8Length(word) < MAX_LINE && ParseLine(word) == Some(n)
    ensures LinesShort(complete + [word])
    ensures IndicesOf(complete + [word]) == IndicesOf(complete + [""]) + {n}
  {
    IndicesSnoc(complete, "");
    IndicesSnoc(complete, word);
    assert forall i | 0 <= i < |complete| :: complete[i] == (complete + [""])[i];
  }

  lemma DigitsParse(word: string)
    requires word != "" && AllDigits(word)
    ensures ParseLine(word) == ParseUint(word)
  {
    assert IsDigit(word[0]) && IsDigit(word[|word| - 1]);
  }

  /** For instance: after an unterminated 7, index 5 is acknowledged and lost. */
  lemma CutLineSwallowsIndex()
    ensures Load("7" + Line(5)).Some? && 5 !in Load("7" + Line(5)).value
  {
    SplitWithoutSep("7", '\n');
    AppendedLog("7", 5);
    FormattedShort(5);
    AsciiLength("7" + FormatUint(5));
    assert Complete("7") == [] && Tail("7") == "7";
    assert IndicesOf(Complete("7")) == {};
    assert TrimLeft("7") == "7" && "7"[0] != '0';
    assert !Harmless("7");
    RevokeSurvivesReplay("7", 5);
  }

  /** A tail of zeros, harmless by itself. */
  function ZeroText(k: nat): (s: string)
    ensures |s| == k && forall i | 0 <= i < k :: s[i] == '0'
  {
    seq(k, _ => '0')
  }

  /** And after 65535 unterminated zeros, which can be replayed and are harmless, any
      further index makes the replay fail, although it is acknowledged. */
  lemma FullTailClosesLog(n: nat)
    ensures Load(ZeroText(MAX_LINE - 1)).Some? && Harmless(ZeroText(MAX_LINE - 1))
    ensures Load(ZeroText(MAX_LINE - 1) + Line(n)).None?
  {
    var zeros := ZeroText(MAX_LINE - 1);
    assert '\n' !in zeros;
    SplitWithoutSep(zeros, '\n');
    AsciiLength(zeros);
    assert Complete(zeros) == [] && Tail(zeros) == zeros;
    LoadsExactly(zeros);
    assert TrimLeft(zeros) == zeros;
    AppendLoadsExactly(zeros, n, |Line(n)|);
  }
}
