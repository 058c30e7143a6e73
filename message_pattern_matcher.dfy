/** `MessagePatternMatcher`: the ordered list of compiled rules, rebuilt from
    the configuration, and the first-match-wins classification of a line. */
module PatternMatcher {

  import opened JavaString
  import opened RegexOracle
  import opened PatternMatching

  /** A rule whose regex compiled, with the regex it compiled to. */
  datatype CompiledPattern = CompiledPattern(regex: Pattern, config: MessagePattern)

  /** What one configured rule adds to the list: nothing when the rule or
      its regex is null or empty, or when compiling throws; else one entry. */
  function CompileOne(rule: Option<MessagePattern>, compile: Compiler): seq<CompiledPattern> {
    if rule.None? || !NonEmpty(rule.value.pattern) then []
    else
      match compile(rule.value.pattern.value)
      case Compiled(regex) => [CompiledPattern(regex, rule.value)]
      case SyntaxError => []
      case CompileFailed => []
  }

  /** The list `reloadPatterns` builds from the rules, in their order. */
  function CompiledFrom(rules: seq<Option<MessagePattern>>, compile: Compiler): seq<CompiledPattern>
    decreases |rules|
  {
    if rules == [] then []
    else CompiledFrom(rules[..|rules| - 1], compile) + CompileOne(rules[|rules| - 1], compile)
  }

  /** The rule produces an entry. */
  predicate Compiles(rule: Option<MessagePattern>, compile: Compiler) {
    rule.Some? && NonEmpty(rule.value.pattern) && compile(rule.value.pattern.value).Compiled?
  }

  /** The list the matcher holds after `reloadPatterns`: empty when the
      feature is off or there are no rules. */
  function Reloaded(enabled: bool, rules: Option<seq<Option<MessagePattern>>>, compile: Compiler): seq<CompiledPattern> {
    if !enabled || rules.None? then [] else CompiledFrom(rules.value, compile)
  }

  /** The result for `msg` from the list `cps`: the first entry whose regex
      matches the whole message or occurs in it; an entry whose matching
      throws an `Exception` is passed over. */
  function FirstMatch(cps: seq<CompiledPattern>, search: Searcher, msg: string): (r: PatternMatchResult)
    decreases |cps|
  {
    if cps == [] then NoMatch()
    else
      var scan := search(cps[0].regex, msg);
      if Finds(scan) then
        var m: Matcher := MatchState(cps[0].regex, msg, scan.spans);
        Match(cps[0].config, msg, m)
      else FirstMatch(cps[1..], search, msg)
  }

  /** What `processMessage` returns. */
  function Classify(cps: seq<CompiledPattern>, enabled: bool, search: Searcher, message: Option<string>): PatternMatchResult {
    if message.None? || message.value == "" then NoMatch()
    else if !enabled then NoMatch()
    else FirstMatch(cps, search, message.value)
  }

  class MessagePatternMatcher {
    var compiledPatterns: seq<CompiledPattern>

    constructor()
      ensures compiledPatterns == []
    {
      compiledPatterns := [];
    }

    /** `reloadPatterns`: clear the list, then compile the rules in order. */
    method ReloadPatterns(enabled: bool, rules: Option<seq<Option<MessagePattern>>>, compile: Compiler)
      modifies this
      ensures compiledPatterns == Reloaded(enabled, rules, compile)
    {
      compiledPatterns := [];
      if !enabled {
        return;
      }
      if rules.None? {
        return;
      }
      var patterns := rules.value;
      for i := 0 to |patterns|
        invariant compiledPatterns == CompiledFrom(patterns[..i], compile)
      {
        assert patterns[..i + 1][..i] == patterns[..i];
        var rule := patterns[i];
        if rule.None? || rule.value.pattern.None? || rule.value.pattern.value == "" {
          continue;
        }
        match compile(rule.value.pattern.value) {
          case Compiled(regex) =>
            compiledPatterns := compiledPatterns + [CompiledPattern(regex, rule.value)];
          case SyntaxError =>
          case CompileFailed =>
        }
      }
      assert patterns[..|patterns|] == patterns;
    }

    /** `processMessage`: try the entries in order, returning on the first
        that finds a match. */
    method ProcessMessage(enabled: bool, search: Searcher, message: Option<string>) returns (r: PatternMatchResult)
      ensures r == Classify(compiledPatterns, enabled, search, message)
    {
      if message.None? || message.value == "" {
        return NoMatch();
      }
      if !enabled {
        return NoMatch();
      }
      var msg := message.value;
      for i := 0 to |compiledPatterns|
        invariant FirstMatch(compiledPatterns, search, msg) == FirstMatch(compiledPatterns[i..], search, msg)
      {
        var compiled := compiledPatterns[i];
        var scan := search(compiled.regex, msg);
        assert compiledPatterns[i..][1..] == compiledPatterns[i + 1..];
        if scan.Scanned? && (scan.fullMatch || |scan.spans| > 0) {
          var m: Matcher := MatchState(compiled.regex, msg, scan.spans);
          return Match(compiled.config, msg, m);
        }
      }
      return NoMatch();
    }

    method GetPatternCount() returns (n: nat)
      ensures n == |compiledPatterns|
    {
      n := |compiledPatterns|;
    }
  }

  // ---------------------------------------------------------------------------
  // Properties of the compiled list

  lemma {:induction false} CompiledFromAppend(a: seq<Option<MessagePattern>>, b: seq<Option<MessagePattern>>, compile: Compiler)
    ensures CompiledFrom(a + b, compile) == CompiledFrom(a, compile) + CompiledFrom(b, compile)
    decreases |b|
  {
    if b == [] {
      assert a + b == a;
    } else {
      var init, last := b[..|b| - 1], b[|b| - 1];
      CompiledFromAppend(a, init, compile);
      calc {
        CompiledFrom(a + b, compile);
        { assert (a + b)[..|a + b| - 1] == a + init && (a + b)[|a + b| - 1] == last; }
        CompiledFrom(a + init, compile) + CompileOne(last, compile);
        (CompiledFrom(a, compile) + CompiledFrom(init, compile)) + CompileOne(last, compile);
        CompiledFrom(a, compile) + (CompiledFrom(init, compile) + CompileOne(last, compile));
        CompiledFrom(a, compile) + CompiledFrom(b, compile);
      }
    }
  }

  /** The list is the rules before `i`, then what rule `i` adds, then the
      rules after it: entries keep the order of their rules. */
  lemma InOrder(rules: seq<Option<MessagePattern>>, i: nat, compile: Compiler)
    requires i < |rules|
    ensures CompiledFrom(rules, compile)
            == CompiledFrom(rules[..i], compile) + CompileOne(rules[i], compile) + CompiledFrom(rules[i + 1..], compile)
  {
    var before, here, after := rules[..i], [rules[i]], rules[i + 1..];
    assert rules == before + (here + after);
    CompiledFromAppend(before, here + after, compile);
    CompiledFromAppend(here, after, compile);
    assert CompiledFrom(here, compile) == CompileOne(rules[i], compile) by {
      assert here[..0] == [];
      assert CompiledFrom(here, compile) == CompiledFrom([], compile) + CompileOne(rules[i], compile);
    }
    assert CompiledFrom(rules, compile)
           == CompiledFrom(before, compile) + (CompiledFrom(here, compile) + CompiledFrom(after, compile));
  }

  /** Every rule with a non-empty regex that compiles is in the list, with
      the regex it compiled to. */
  lemma ValidRulesKept(rules: seq<Option<MessagePattern>>, i: nat, compile: Compiler)
    requires i < |rules| && Compiles(rules[i], compile)
    ensures CompiledPattern(compile(rules[i].value.pattern.value).pattern, rules[i].value) in CompiledFrom(rules, compile)
  {
    InOrder(rules, i, compile);
  }

  /** Every entry of the list comes from a configured rule with a non-empty
      regex that compiled to the entry's regex. */
  lemma {:induction false} EntriesFromRules(rules: seq<Option<MessagePattern>>, compile: Compiler, k: nat)
    requires k < |CompiledFrom(rules, compile)|
    ensures var e := CompiledFrom(rules, compile)[k];
            Some(e.config) in rules && Compiles(Some(e.config), compile)
            && compile(e.config.pattern.value) == Compiled(e.regex)
    decreases |rules|
  {
    var init := rules[..|rules| - 1];
    var last := rules[|rules| - 1];
    assert CompiledFrom(rules, compile) == CompiledFrom(init, compile) + CompileOne(last, compile);
    if k < |CompiledFrom(init, compile)| {
      EntriesFromRules(init, compile, k);
      var e := CompiledFrom(rules, compile)[k];
      assert Some(e.config) in init;
    } else {
      assert k == |CompiledFrom(init, compile)|;
    }
  }

  /** When no rule compiles the list is empty, so the count is 0. */
  lemma {:induction false} NoValidRuleNoEntries(rules: seq<Option<MessagePattern>>, compile: Compiler)
    requires forall i :: 0 <= i < |rules| ==> !Compiles(rules[i], compile)
    ensures CompiledFrom(rules, compile) == []
    decreases |rules|
  {
    if rules != [] {
      var init := rules[..|rules| - 1];
      assert forall i :: 0 <= i < |init| ==> init[i] == rules[i];
      NoValidRuleNoEntries(init, compile);
      assert !Compiles(rules[|rules| - 1], compile);
    }
  }

  // ---------------------------------------------------------------------------
  // Properties of processMessage

  /** A null or empty line, or a disabled feature, yields no match whatever
      the list holds. */
  lemma NothingToClassify(cps: seq<CompiledPattern>, enabled: bool, search: Searcher, message: Option<string>)
    requires message.None? || message.value == "" || !enabled
    ensures Classify(cps, enabled, search, message) == NoMatch()
  {
  }

  /** The first entry that finds a match decides the result: it carries that
      entry's rule, the line itself and the matches found; later entries
      are never consulted. */
  lemma {:induction false} FirstFinderWins(cps: seq<CompiledPattern>, search: Searcher, msg: string, i: nat)
    requires i < |cps| && Finds(search(cps[i].regex, msg))
    requires forall j :: 0 <= j < i ==> !Finds(search(cps[j].regex, msg))
    ensures var r := FirstMatch(cps, search, msg);
            r.matched && r.pattern == Some(cps[i].config) && r.originalMessage == Some(msg)
            && r.matcher.Some? && r.matcher.value.regex == cps[i].regex
            && r.matcher.value.spans == search(cps[i].regex, msg).spans
    decreases i
  {
    if i > 0 {
      assert !Finds(search(cps[0].regex, msg));
      forall j | 0 <= j < i - 1
        ensures !Finds(search(cps[1..][j].regex, msg))
      {
        assert cps[1..][j] == cps[j + 1];
      }
      FirstFinderWins(cps[1..], search, msg, i - 1);
    }
  }

  /** The line goes unmatched exactly when no entry finds a match in it. */
  lemma {:induction false} UnmatchedIffNoneFinds(cps: seq<CompiledPattern>, search: Searcher, msg: string)
    ensures !FirstMatch(cps, search, msg).matched
            <==> forall j :: 0 <= j < |cps| ==> !Finds(search(cps[j].regex, msg))
    decreases |cps|
  {
    if cps != [] {
      UnmatchedIffNoneFinds(cps[1..], search, msg);
      assert forall j :: 0 < j < |cps| ==> cps[j] == cps[1..][j - 1];
    }
  }

  /** After a reload with the feature off, or with no rules, nothing matches. */
  lemma ReloadDisabledMatchesNothing(enabled: bool, rules: Option<seq<Option<MessagePattern>>>, compile: Compiler,
                                     search: Searcher, message: Option<string>)
    requires !enabled || rules.None?
    ensures Reloaded(enabled, rules, compile) == []
    ensures !Classify(Reloaded(enabled, rules, compile), enabled, search, message).matched
  {
  }
}
