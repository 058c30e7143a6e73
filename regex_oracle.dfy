/** The parts of `java.util.regex` the pattern rules use. Compiling and
    searching are left to an oracle (the regex engine is not modelled); what
    `Matcher.replaceAll` does with the matches it finds, including the `$n`,
    `${name}` and `\` syntax of the replacement, is written out. */
module RegexOracle {

  import opened JavaString

  /** A compiled `Pattern`: its source, how many capturing groups it has and
      the numbers of its named groups. */
  datatype Pattern = Pattern(source: string, groupCount: nat, groupNames: map<string, nat>)

  /** What `Pattern.compile(source, CASE_INSENSITIVE)` gives. */
  datatype CompileOutcome = Compiled(pattern: Pattern) | SyntaxError | CompileFailed

  /** One match: where it lies, and what groups 1.. captured (`None` for a
      group that took no part in the match). */
  datatype Span = Span(start: nat, end: nat, groups: seq<Option<string>>)

  /** What running a matcher over a message gives: whether `matches()`
      succeeds on the whole message, and the matches successive `find()`
      calls return from the start; or an `Exception` thrown while matching
      (an `Error` such as a stack overflow is not modelled). */
  datatype Scan = Scanned(fullMatch: bool, spans: seq<Span>) | ScanFailed

  /** The engine, as two total functions the model is handed. */
  type Compiler = string -> CompileOutcome

  /** `matcher.matches() || matcher.find()`: a failed `matches()` leaves the
      search position at the start, so this holds when the whole message
      matches or any match is found. */
  predicate Finds(scan: Scan) {
    scan.Scanned? && (scan.fullMatch || |scan.spans| > 0)
  }

  /** The matches an engine can report for `msg` from `from` on: in order,
      not overlapping, inside the message, each with one entry per group. */
  predicate SpansFit(msg: string, spans: seq<Span>, from: nat, groupCount: nat)
    decreases |spans|
  {
    spans == [] ||
    (from <= spans[0].start <= spans[0].end <= |msg| && |spans[0].groups| == groupCount
     && SpansFit(msg, spans[1..], spans[0].end, groupCount))
  }

  /** What any engine guarantees of a scan: the matches fit the message, and
      when the whole message matches a search finds a match too. */
  predicate ScanFits(p: Pattern, msg: string, scan: Scan) {
    scan.ScanFailed? || (SpansFit(msg, scan.spans, 0, p.groupCount) && (scan.fullMatch ==> |scan.spans| > 0))
  }

  type Searcher = f: (Pattern, string) -> Scan | forall p, msg :: ScanFits(p, msg, f(p, msg))
    witness (p: Pattern, msg: string) => ScanFailed

  // ---------------------------------------------------------------------------
  // The replacement string

  /** The exceptions `appendReplacement` throws on a bad replacement string. */
  datatype ReplaceError = IllegalArgument | IndexOutOfBounds

  datatype Expanded = Expanded(text: string) | ExpandError(error: ReplaceError)

  predicate IsAsciiDigit(c: char) { '0' <= c <= '9' }

  predicate IsAsciiAlnum(c: char) {
    'a' <= c <= 'z' || 'A' <= c <= 'Z' || IsAsciiDigit(c)
  }

  function DigitOf(c: char): nat
    requires IsAsciiDigit(c)
  {
    (c - '0') as nat
  }

  /** The characters of a group name in `${name}`, from position `i` on. */
  function NameEnd(t: string, i: nat): (j: nat)
    requires i <= |t|
    ensures i <= j <= |t|
    ensures forall k :: i <= k < j ==> IsAsciiAlnum(t[k])
    ensures j < |t| ==> !IsAsciiAlnum(t[j])
    decreases |t| - i
  {
    if i < |t| && IsAsciiAlnum(t[i]) then NameEnd(t, i + 1) else i
  }

  /** After the first digit of `$n`, further digits are taken while the
      number they make is still a group of the pattern. */
  function GroupDigits(t: string, i: nat, n: nat, groupCount: nat): (r: (nat, nat))
    requires i <= |t|
    ensures i <= r.1 <= |t|
    ensures r.1 == i ==> r.0 == n
    ensures r.1 > i ==> r.0 <= groupCount
    decreases |t| - i
  {
    if i < |t| && IsAsciiDigit(t[i]) && n * 10 + DigitOf(t[i]) <= groupCount
    then GroupDigits(t, i + 1, n * 10 + DigitOf(t[i]), groupCount)
    else (n, i)
  }

  function Prepend(s: string, e: Expanded): Expanded {
    match e
    case Expanded(text) => Expanded(s + text)
    case ExpandError(err) => e
  }

  function GroupText(g: Option<string>): string {
    if g.Some? then g.value else ""
  }

  /** The replacement string expanded for one match, `groups[0]` being the
      whole match: `\c` stands for `c`; `$n` for group `n`, the number as long
      as it names a group; `${name}` for a named group; anything else for
      itself. A group that took no part in the match adds nothing. */
  function Expand(t: string, groups: seq<Option<string>>, names: map<string, nat>): Expanded
    requires |groups| > 0
    decreases |t|
  {
    if t == [] then Expanded("")
    else if t[0] == '\\' then
      if |t| == 1 then ExpandError(IllegalArgument)
      else Prepend([t[1]], Expand(t[2..], groups, names))
    else if t[0] == '$' then
      if |t| == 1 then ExpandError(IllegalArgument)
      else if t[1] == '{' then
        var j := NameEnd(t, 2);
        if j == 2 then ExpandError(IllegalArgument)
        else if j == |t| || t[j] != '}' then ExpandError(IllegalArgument)
        else if IsAsciiDigit(t[2]) then ExpandError(IllegalArgument)
        else if t[2..j] !in names then ExpandError(IllegalArgument)
        else if names[t[2..j]] >= |groups| then ExpandError(IndexOutOfBounds)
        else Prepend(GroupText(groups[names[t[2..j]]]), Expand(t[j + 1..], groups, names))
      else if !IsAsciiDigit(t[1]) then ExpandError(IllegalArgument)
      else
        var (n, j) := GroupDigits(t, 2, DigitOf(t[1]), |groups| - 1);
        if n >= |groups| then ExpandError(IndexOutOfBounds)
        else Prepend(GroupText(groups[n]), Expand(t[j..], groups, names))
    else Prepend([t[0]], Expand(t[1..], groups, names))
  }

  /** A replacement without `$` and `\` is copied as it is. */
  lemma {:induction false} LiteralExpands(t: string, groups: seq<Option<string>>, names: map<string, nat>)
    requires |groups| > 0
    requires forall k :: 0 <= k < |t| ==> t[k] != '$' && t[k] != '\\'
    ensures Expand(t, groups, names) == Expanded(t)
    decreases |t|
  {
    if t != [] {
      LiteralExpands(t[1..], groups, names);
      assert [t[0]] + t[1..] == t;
    }
  }

  /** `$d` followed by a non-digit is group `d` when the pattern has it, and
      an `IndexOutOfBoundsException` when it does not. */
  lemma OneDigitGroup(d: char, rest: string, groups: seq<Option<string>>, names: map<string, nat>)
    requires IsAsciiDigit(d) && |groups| > 0
    requires rest == [] || !IsAsciiDigit(rest[0])
    ensures var t := ['$', d] + rest;
            Expand(t, groups, names)
            == if DigitOf(d) < |groups| then Prepend(GroupText(groups[DigitOf(d)]), Expand(rest, groups, names))
               else ExpandError(IndexOutOfBounds)
  {
    var t := ['$', d] + rest;
    assert t[2..] == rest;
  }

  /** A trailing `$` or `\` makes the replacement string illegal. */
  lemma DanglingIsIllegal(c: char, groups: seq<Option<string>>, names: map<string, nat>)
    requires c == '$' || c == '\\'
    requires |groups| > 0
    ensures Expand([c], groups, names) == ExpandError(IllegalArgument)
  {
  }

  /** `\` takes the next character literally, `$` included. */
  lemma EscapedExpands(c: char, rest: string, groups: seq<Option<string>>, names: map<string, nat>)
    requires |groups| > 0
    ensures Expand(['\\', c] + rest, groups, names) == Prepend([c], Expand(rest, groups, names))
  {
    assert (['\\', c] + rest)[2..] == rest;
  }

  // ---------------------------------------------------------------------------
  // Matcher.replaceAll

  /** The groups one match hands to `Expand`: the match itself, then its groups. */
  function MatchGroups(msg: string, sp: Span): seq<Option<string>>
    requires sp.start <= sp.end <= |msg|
  {
    [Some(msg[sp.start..sp.end])] + sp.groups
  }

  /** From position `from` on: the text up to each match, then the expanded
      replacement for it, and after the last match the rest of the message. */
  function ReplaceFrom(msg: string, p: Pattern, spans: seq<Span>, from: nat, t: string): Expanded
    requires from <= |msg| && SpansFit(msg, spans, from, p.groupCount)
    decreases |spans|
  {
    if spans == [] then Expanded(msg[from..])
    else
      var sp := spans[0];
      match Expand(t, MatchGroups(msg, sp), p.groupNames)
      case ExpandError(err) => ExpandError(err)
      case Expanded(e) =>
        Prepend(msg[from..sp.start] + e, ReplaceFrom(msg, p, spans[1..], sp.end, t))
  }

  /** `Matcher.replaceAll(t)`: every match replaced by `t` expanded for it,
      the text between and around the matches kept. With no match the
      message comes back as it is and `t` is never read. */
  function ReplaceAll(msg: string, p: Pattern, spans: seq<Span>, t: string): Expanded
    requires SpansFit(msg, spans, 0, p.groupCount)
  {
    ReplaceFrom(msg, p, spans, 0, t)
  }

  /** No match: the message itself, whatever the replacement string. */
  lemma NoMatchKeepsMessage(msg: string, p: Pattern, t: string)
    ensures ReplaceAll(msg, p, [], t) == Expanded(msg)
  {
    assert msg[0..] == msg;
  }

  /** A match spanning the whole message: exactly the expanded replacement. */
  lemma WholeMatchIsExpansion(msg: string, p: Pattern, groups: seq<Option<string>>, t: string)
    requires |groups| == p.groupCount
    ensures SpansFit(msg, [Span(0, |msg|, groups)], 0, p.groupCount)
    ensures ReplaceAll(msg, p, [Span(0, |msg|, groups)], t)
            == Expand(t, [Some(msg)] + groups, p.groupNames)
  {
    var sp := Span(0, |msg|, groups);
    assert msg[0..|msg|] == msg;
    assert MatchGroups(msg, sp) == [Some(msg)] + groups;
    assert ReplaceFrom(msg, p, [sp][1..], |msg|, t) == Expanded([]) by {
      assert [sp][1..] == [];
    }
    match Expand(t, [Some(msg)] + groups, p.groupNames)
    case ExpandError(_) =>
    case Expanded(e) =>
      assert msg[0..0] + e + [] == e;
  }

  /** Where the last match ends (`from` when there is none). */
  function LastEnd(msg: string, spans: seq<Span>, from: nat, groupCount: nat): (r: nat)
    requires from <= |msg| && SpansFit(msg, spans, from, groupCount)
    ensures from <= r <= |msg|
    decreases |spans|
  {
    if spans == [] then from else LastEnd(msg, spans[1..], spans[0].end, groupCount)
  }

  /** The text before the first match survives `replaceAll` untouched. */
  lemma PrefixKept(msg: string, p: Pattern, spans: seq<Span>, from: nat, t: string)
    requires from <= |msg| && SpansFit(msg, spans, from, p.groupCount)
    requires ReplaceFrom(msg, p, spans, from, t).Expanded?
    ensures var r := ReplaceFrom(msg, p, spans, from, t).text;
            var first := if spans == [] then |msg| else spans[0].start;
            first - from <= |r| && r[..first - from] == msg[from..first]
  {
  }

  /** The text after the last match survives `replaceAll` untouched. */
  lemma {:induction false} SuffixKept(msg: string, p: Pattern, spans: seq<Span>, from: nat, t: string)
    requires from <= |msg| && SpansFit(msg, spans, from, p.groupCount)
    requires ReplaceFrom(msg, p, spans, from, t).Expanded?
    ensures var r := ReplaceFrom(msg, p, spans, from, t).text;
            var last := LastEnd(msg, spans, from, p.groupCount);
            |msg| - last <= |r| && r[|r| - (|msg| - last)..] == msg[last..]
    decreases |spans|
  {
    if spans != [] {
      var sp := spans[0];
      var e := Expand(t, MatchGroups(msg, sp), p.groupNames).text;
      var rest := ReplaceFrom(msg, p, spans[1..], sp.end, t).text;
      SuffixKept(msg, p, spans[1..], sp.end, t);
      var r := msg[from..sp.start] + e + rest;
      assert ReplaceFrom(msg, p, spans, from, t).text == r;
      var k := |msg| - LastEnd(msg, spans, from, p.groupCount);
      assert r[|r| - k..] == rest[|rest| - k..];
    }
  }

  /** A replacement without `$` and `\` puts itself in place of the one match. */
  lemma LiteralReplacesMatch(msg: string, p: Pattern, sp: Span, t: string)
    requires SpansFit(msg, [sp], 0, p.groupCount)
    requires forall k :: 0 <= k < |t| ==> t[k] != '$' && t[k] != '\\'
    ensures ReplaceAll(msg, p, [sp], t) == Expanded(msg[..sp.start] + t + msg[sp.end..])
  {
    LiteralExpands(t, MatchGroups(msg, sp), p.groupNames);
    assert [sp][1..] == [];
    assert ReplaceFrom(msg, p, [sp][1..], sp.end, t) == Expanded(msg[sp.end..]);
    assert msg[0..sp.start] == msg[..sp.start];
    assert ReplaceFrom(msg, p, [sp], 0, t) == Prepend(msg[0..sp.start] + t, Expanded(msg[sp.end..]));
  }
}
