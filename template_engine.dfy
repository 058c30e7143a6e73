/** TemplateEngine.java: a case-insensitive registry of named templates and
    `process`, which rewrites a template in three fixed stages: `{include name}`
    expansion, `{if c}…{/if}` / `{ifnot c}…{/ifnot}` resolution, and
    `%name%` / `%name|default%` substitution.

    The stages are specified here by functions; the class at the end holds the
    registry and performs the stages with the source's loops, each proved
    equal to its function. */
module Templating {

  import opened JavaString
  import opened TemplateRecord
  import opened TemplateTokens

  /** The caller's variable map (keys are matched exactly). */
  type Variables = map<string, string>

  /** The registry: lower-cased name to template. */
  type Registry = map<string, Template>

  // ---------------------------------------------------------------------------
  // evaluateCondition

  predicate IsQuote(c: char) { c == '"' || c == '\'' }

  /** The characters before which a non-MULTILINE `$` also matches at the end of input. */
  predicate IsLineTerminator(c: char) {
    c == '\n' || c == '\r' || c == '\U{85}' || c == '\U{2028}' || c == '\U{2029}'
  }

  /** `e.replaceAll("^[\"']|[\"']$", "")`: drops one quote at the start and one
      quote standing at the end of input (`$` also matches just before a final
      line terminator). */
  function StripQuotes(e: string): (r: string)
    ensures |r| <= |e|
  {
    var n := |e|;
    var lead := if n > 0 && IsQuote(e[0]) then 1 else 0;
    var trail :=
      if n >= 2 && IsQuote(e[n - 1]) then n - 1
      else if n >= 3 && IsQuote(e[n - 2]) && IsLineTerminator(e[n - 1]) then n - 2
      else if n >= 4 && IsQuote(e[n - 3]) && e[n - 2] == '\r' && e[n - 1] == '\n' then n - 3
      else 0;
    if trail > 0 then e[lead..trail] + e[trail + 1..] else e[lead..]
  }

  /** A variable's value counts as true unless it is empty or, ignoring case,
      "false", "0" or "no". */
  predicate Truthy(value: string) {
    value != "" && !EqualsIgnoreCase(value, "false") && !EqualsIgnoreCase(value, "0")
    && !EqualsIgnoreCase(value, "no")
  }

  /** `variables.getOrDefault(key, "")`. */
  function ValueOrEmpty(variables: Variables, key: string): string {
    if key in variables then variables[key] else ""
  }

  /** `condition.split(op, 2)`: the text before the first `op` and the text after it. */
  function SplitOnce(condition: string, op: string): (parts: (string, string))
    requires |op| > 0 && Contains(condition, op)
  {
    var i := IndexOf(condition, op, 0).value;
    (condition[..i], condition[i + |op|..])
  }

  /** The comparison `a op v`: the value of the trimmed `a` (absent gives "")
      against the trimmed, quote-stripped `v`. */
  predicate ComparesEqual(condition: string, op: string, variables: Variables)
    requires |op| > 0 && Contains(condition, op)
  {
    var (lhs, rhs) := SplitOnce(condition, op);
    ValueOrEmpty(variables, Trim(lhs)) == StripQuotes(Trim(rhs))
  }

  /** `evaluateCondition`: true only for a key whose value is set, or for a
      comparison with `==` or `!=`; a condition naming a key is decided by
      that key's value alone, even when it contains an operator, and is false
      when the value is empty, "false", "0" or "no" in any case. */
  predicate EvaluateCondition(condition: string, variables: Variables)
    ensures Trim(condition) in variables ==>
              (EvaluateCondition(condition, variables) <==> Truthy(variables[Trim(condition)]))
    ensures EvaluateCondition(condition, variables) ==>
              Trim(condition) in variables || Contains(Trim(condition), "==") || Contains(Trim(condition), "!=")
    ensures Trim(condition) in variables && variables[Trim(condition)] == "" ==> !EvaluateCondition(condition, variables)
  {
    var c := Trim(condition);
    if c in variables then Truthy(variables[c])
    else if Contains(c, "==") then ComparesEqual(c, "==", variables)
    else if Contains(c, "!=") then !ComparesEqual(c, "!=", variables)
    else c in variables && ValueOrEmpty(variables, c) != ""
  }

  // ---------------------------------------------------------------------------
  // processVariables

  /** What one `%name%` / `%name|default%` match stands for: the value of the
      trimmed name, or when that is missing or empty, the default or "". */
  function VariableValue(variables: Variables, t: Token): string {
    var name := Trim(t.group1);
    if name in variables && variables[name] != "" then variables[name]
    else if t.group2.Some? then t.group2.value
    else ""
  }

  predicate NonEmptyMatches(ts: seq<Token>) {
    forall t :: t in ts ==> |t.whole| > 0
  }

  lemma ScannedMatchesNonEmpty(s: string, from: nat, kind: Kind)
    ensures NonEmptyMatches(Tokens(s, from, kind))
  {
    TokensWellFormed(s, from, kind);
  }

  /** The matches, taken in order, each replaced wherever its text occurs in
      the running result (`result.replace(matcher.group(0), value)`). */
  function SubstituteAll(result: string, ts: seq<Token>, variables: Variables): string
    requires NonEmptyMatches(ts)
    decreases |ts|
  {
    if ts == [] then result
    else SubstituteAll(Replace(result, ts[0].whole, VariableValue(variables, ts[0])), ts[1..], variables)
  }

  /** `processVariables`: the matches are those of the text handed in. */
  function SubstituteVariables(template: string, variables: Variables): string {
    ScannedMatchesNonEmpty(template, 0, Variable);
    SubstituteAll(template, Tokens(template, 0, Variable), variables)
  }

  // ---------------------------------------------------------------------------
  // processConditionals

  /** What one block becomes: its body when the condition holds (for `{if}`)
      or fails (for `{ifnot}`), otherwise nothing. */
  function BlockReplacement(t: Token, kind: Kind, variables: Variables): string
    requires kind == If || kind == IfNot
  {
    var holds := EvaluateCondition(Trim(t.group1), variables);
    if (kind == If && holds) || (kind == IfNot && !holds) then
      (if t.group2.Some? then t.group2.value else "")
    else ""
  }

  /** `appendReplacement` over every match from `from` on, then `appendTail`. */
  function RewriteFrom(s: string, from: nat, kind: Kind, variables: Variables): string
    requires kind == If || kind == IfNot
    requires from <= |s|
    decreases |s| - from
  {
    match Find(s, from, kind)
    case None => s[from..]
    case Some(t) => s[from..t.start] + BlockReplacement(t, kind, variables) + RewriteFrom(s, t.end, kind, variables)
  }

  /** One step of the matcher loop: the first block from `from` on. */
  lemma RewriteStep(s: string, from: nat, kind: Kind, variables: Variables, t: Token)
    requires kind == If || kind == IfNot
    requires from <= |s| && Find(s, from, kind) == Some(t)
    ensures from <= t.start < t.end <= |s|
    ensures RewriteFrom(s, from, kind, variables)
            == s[from..t.start] + BlockReplacement(t, kind, variables) + RewriteFrom(s, t.end, kind, variables)
  {
  }

  /** `appendReplacement` of the first block from `from` on extends what has
      been built so far towards the same `total`. */
  lemma RewriteAdvance(s: string, from: nat, kind: Kind, variables: Variables, t: Token, built: string, total: string)
    requires kind == If || kind == IfNot
    requires from <= |s| && Find(s, from, kind) == Some(t)
    requires built + RewriteFrom(s, from, kind, variables) == total
    ensures from <= t.start < t.end <= |s|
    ensures (built + (s[from..t.start] + BlockReplacement(t, kind, variables))) + RewriteFrom(s, t.end, kind, variables)
            == total
  {
    RewriteStep(s, from, kind, variables, t);
    Regroup(built, s[from..t.start] + BlockReplacement(t, kind, variables), RewriteFrom(s, t.end, kind, variables),
            RewriteFrom(s, from, kind, variables), total);
  }

  lemma Regroup(built: string, piece: string, rest: string, whole: string, total: string)
    requires whole == piece + rest && built + whole == total
    ensures (built + piece) + rest == total
  {
  }

  /** The matcher loop ends with `appendTail`: no block is left. */
  lemma RewriteTail(s: string, from: nat, kind: Kind, variables: Variables)
    requires kind == If || kind == IfNot
    requires from <= |s| && Find(s, from, kind).None?
    ensures RewriteFrom(s, from, kind, variables) == s[from..]
  {
  }

  /** One pass: every `{if}` block, then every `{ifnot}` block of the result. */
  function ConditionalPass(s: string, variables: Variables): string {
    var afterIf := RewriteFrom(s, 0, If, variables);
    RewriteFrom(afterIf, 0, IfNot, variables)
  }

  const MaxIterations: nat := 10

  /** The do-while loop of `processConditionals` in its three steps: the top
      of the body with `iterations` passes done (`previousResult = result`),
      the pass itself with `iterations++`, and the loop test. */
  function ResolveFrom(result: string, variables: Variables, iterations: nat): string
    requires iterations < MaxIterations
    decreases MaxIterations - iterations, 1
  {
    PassStep(result, result, variables, iterations)
  }

  /** With `previousResult` saved: one pass and `iterations++`. */
  function PassStep(previousResult: string, result: string, variables: Variables, iterations: nat): string
    requires iterations < MaxIterations
    decreases MaxIterations - iterations, 0
  {
    LoopTest(previousResult, ConditionalPass(result, variables), variables, iterations + 1)
  }

  /** `while (!result.equals(previousResult) && iterations < maxIterations)`. */
  function LoopTest(previousResult: string, result: string, variables: Variables, iterations: nat): string
    requires 0 < iterations <= MaxIterations
    decreases MaxIterations - iterations, 2
  {
    if result != previousResult && iterations < MaxIterations then ResolveFrom(result, variables, iterations)
    else result
  }

  /** One turn of the do-while loop: the body run on `s` leaves `r`, and the
      loop test either stops at `r` or goes on from it, on the way to the
      same `total`. */
  lemma ResolveStep(s: string, variables: Variables, iterations: nat, afterIf: string, r: string, total: string)
    requires iterations < MaxIterations
    requires afterIf == RewriteFrom(s, 0, If, variables) && r == RewriteFrom(afterIf, 0, IfNot, variables)
    requires ResolveFrom(s, variables, iterations) == total
    ensures r != s && iterations + 1 < MaxIterations ==> ResolveFrom(r, variables, iterations + 1) == total
    ensures !(r != s && iterations + 1 < MaxIterations) ==> r == total
  {
    assert r == ConditionalPass(s, variables);
    assert PassStep(s, s, variables, iterations) == total;
    assert LoopTest(s, r, variables, iterations + 1) == total;
  }

  function ResolveConditionals(s: string, variables: Variables): string {
    ResolveFrom(s, variables, 0)
  }

  // ---------------------------------------------------------------------------
  // processIncludes and process

  /** The outcome of `process`: a string, or the recursion that the source does
      not bound (an include cycle) running past the depth the model allows. */
  datatype Processed = Text(text: string) | RecursionTooDeep

  /** The registry key of an include match: group 1 trimmed and lower-cased. */
  function IncludeKey(t: Token): string {
    ToLower(Trim(t.group1))
  }

  /** One include match against the running result: a registered template is
      processed with the caller's variables and replaces every occurrence of
      the match's text; an unregistered one leaves the result as it is.
      `depth` bounds the nesting of includes. */
  function IncludeMatch(registry: Registry, result: string, t: Token, variables: Variables, depth: nat): Processed
    requires |t.whole| > 0
    decreases depth, 0
  {
    if IncludeKey(t) !in registry then Text(result)
    else if depth == 0 then RecursionTooDeep
    else
      match ProcessText(registry, registry[IncludeKey(t)].content, variables, depth - 1)
      case RecursionTooDeep => RecursionTooDeep
      case Text(included) => Text(Replace(result, t.whole, included))
  }

  /** The include matches taken in order, each against the result of those before it. */
  function SpliceIncludes(registry: Registry, result: string, ts: seq<Token>, variables: Variables, depth: nat): Processed
    requires NonEmptyMatches(ts)
    decreases depth, 1, |ts|
  {
    if ts == [] then Text(result)
    else
      match IncludeMatch(registry, result, ts[0], variables, depth)
      case RecursionTooDeep => RecursionTooDeep
      case Text(next) => SpliceIncludes(registry, next, ts[1..], variables, depth)
  }

  /** One turn of the include loop: the match `Find` returns is spliced in,
      on the way to the same `total`. */
  lemma SpliceStep(registry: Registry, template: string, pos: nat, t: Token, result: string,
                   variables: Variables, depth: nat, total: Processed)
    requires Find(template, pos, Include) == Some(t)
    requires NonEmptyMatches(Tokens(template, pos, Include))
    requires SpliceIncludes(registry, result, Tokens(template, pos, Include), variables, depth) == total
    ensures |t.whole| > 0 && NonEmptyMatches(Tokens(template, t.end, Include))
    ensures match IncludeMatch(registry, result, t, variables, depth)
            case RecursionTooDeep => total == RecursionTooDeep
            case Text(next) => SpliceIncludes(registry, next, Tokens(template, t.end, Include), variables, depth) == total
  {
    TokensStep(template, pos, Include, t);
    var ts := Tokens(template, pos, Include);
    assert ts[0] == t && ts[1..] == Tokens(template, t.end, Include);
  }

  /** `processIncludes`. */
  function ExpandIncludes(registry: Registry, template: string, variables: Variables, depth: nat): Processed
    decreases depth, 2
  {
    ScannedMatchesNonEmpty(template, 0, Include);
    SpliceIncludes(registry, template, Tokens(template, 0, Include), variables, depth)
  }

  /** `process`: an empty template is returned as it is; otherwise includes,
      then conditionals, then variables. */
  function ProcessText(registry: Registry, template: string, variables: Variables, depth: nat): Processed
    decreases depth, 3
  {
    if template == [] then Text(template)
    else
      match ExpandIncludes(registry, template, variables, depth)
      case RecursionTooDeep => RecursionTooDeep
      case Text(included) => Text(SubstituteVariables(ResolveConditionals(included, variables), variables))
  }

  // ---------------------------------------------------------------------------
  // The registry

  /** Every key is the lower-cased name of the template stored under it. */
  ghost predicate KeysLowered(registry: Registry) {
    forall k :: k in registry ==> ToLower(registry[k].name) == k
  }

  /** `getTemplate(name)`. */
  function Lookup(registry: Registry, name: string): Option<Template> {
    if ToLower(name) in registry then Some(registry[ToLower(name)]) else None
  }

  /** `registerTemplate(template)`: stored under its lower-cased name,
      overwriting whatever was there. */
  function Register(registry: Registry, t: Template): (r: Registry)
    ensures KeysLowered(registry) ==> KeysLowered(r)
  {
    ToLowerIdempotent(t.name);
    registry[ToLower(t.name) := t]
  }

  /** `unregisterTemplate(name)`. */
  function Unregister(registry: Registry, name: string): (r: Registry)
    ensures KeysLowered(registry) ==> KeysLowered(r)
  {
    registry - {ToLower(name)}
  }

  class TemplateEngine {
    var registeredTemplates: Registry

    ghost predicate Valid()
      reads this
    {
      KeysLowered(registeredTemplates)
    }

    constructor ()
      ensures Valid() && registeredTemplates == map[]
    {
      registeredTemplates := map[];
    }

    /** `registerTemplate(String name, String content)`. */
    method RegisterTemplate(name: string, content: string)
      requires Valid()
      modifies this
      ensures Valid()
      ensures registeredTemplates == Register(old(registeredTemplates), Template(name, content))
    {
      ToLowerIdempotent(name);
      registeredTemplates := registeredTemplates[ToLower(name) := Template(name, content)];
    }

    /** `registerTemplate(Template template)`. */
    method RegisterTemplateObject(template: Template)
      requires Valid()
      modifies this
      ensures Valid()
      ensures registeredTemplates == Register(old(registeredTemplates), template)
    {
      ToLowerIdempotent(template.name);
      registeredTemplates := registeredTemplates[ToLower(template.name) := template];
    }

    method UnregisterTemplate(name: string)
      requires Valid()
      modifies this
      ensures Valid()
      ensures registeredTemplates == Unregister(old(registeredTemplates), name)
    {
      registeredTemplates := registeredTemplates - {ToLower(name)};
    }

    /** `getTemplate(name)`: the template stored under the lower-cased name, or null. */
    method GetTemplate(name: string) returns (r: Option<Template>)
      ensures r.Some? <==> ToLower(name) in registeredTemplates
      ensures r.Some? ==> r.value == registeredTemplates[ToLower(name)]
    {
      if ToLower(name) in registeredTemplates {
        r := Some(registeredTemplates[ToLower(name)]);
      } else {
        r := None;
      }
    }

    /** `getRegisteredTemplateNames()`: a copy of the key set. */
    method GetRegisteredTemplateNames() returns (names: set<string>)
      requires Valid()
      ensures names == registeredTemplates.Keys
      ensures forall n :: n in names ==> ToLower(n) == n
    {
      names := registeredTemplates.Keys;
      forall n | n in names ensures ToLower(n) == n {
        ToLowerIdempotent(registeredTemplates[n].name);
      }
    }

    method ClearTemplates()
      modifies this
      ensures Valid() && registeredTemplates == map[]
    {
      registeredTemplates := map[];
    }

    /** `process(template, variables)`; a null template is handed back as null.
        The stages read the registry and never change it. */
    method Process(template: Option<string>, variables: Variables, depth: nat) returns (r: Option<Processed>)
      ensures template.None? ==> r.None?
      ensures template.Some? ==> r == Some(ProcessText(registeredTemplates, template.value, variables, depth))
    {
      if template.None? {
        return None;
      }
      var processed := ProcessString(registeredTemplates, template.value, variables, depth);
      r := Some(processed);
    }
  }

  // ---------------------------------------------------------------------------
  // The bodies of the engine's processing methods, over the registry they read

  /** `process` for a non-null template: an empty one is returned as it is. */
  method ProcessString(registry: Registry, template: string, variables: Variables, depth: nat) returns (r: Processed)
    ensures r == ProcessText(registry, template, variables, depth)
    decreases depth, 4
  {
    if template == [] {
      return Text(template);
    }
    var result := ProcessIncludes(registry, template, variables, depth);
    if result.RecursionTooDeep? {
      return RecursionTooDeep;
    }
    var resolved := ProcessConditionals(result.text, variables);
    var substituted := ProcessVariables(resolved, variables);
    r := Text(substituted);
  }

  /** `processIncludes`: the matcher walks the text handed in while the
      result is rewritten. */
  method ProcessIncludes(registry: Registry, template: string, variables: Variables, depth: nat) returns (r: Processed)
    ensures r == ExpandIncludes(registry, template, variables, depth)
    decreases depth, 3
  {
    ScannedMatchesNonEmpty(template, 0, Include);
    ghost var total := ExpandIncludes(registry, template, variables, depth);
    var result := template;
    var pos := 0;
    var next := Find(template, 0, Include);
    while next.Some?
      invariant pos <= |template|
      invariant next == Find(template, pos, Include)
      invariant NonEmptyMatches(Tokens(template, pos, Include))
      invariant SpliceIncludes(registry, result, Tokens(template, pos, Include), variables, depth) == total
      decreases |template| - pos
    {
      var t := next.value;
      SpliceStep(registry, template, pos, t, result, variables, depth, total);
      var spliced := IncludeOne(registry, result, t, variables, depth);
      if spliced.RecursionTooDeep? {
        return RecursionTooDeep;
      }
      result := spliced.text;
      pos := t.end;
      next := Find(template, pos, Include);
    }
    r := Text(result);
  }

  /** The body of the include loop for one match. */
  method IncludeOne(registry: Registry, result: string, t: Token, variables: Variables, depth: nat) returns (r: Processed)
    requires |t.whole| > 0
    ensures r == IncludeMatch(registry, result, t, variables, depth)
    decreases depth, 2
  {
    var key := IncludeKey(t);
    if key !in registry {
      return Text(result);
    }
    if depth == 0 {
      return RecursionTooDeep;
    }
    var included := ProcessString(registry, registry[key].content, variables, depth - 1);
    if included.RecursionTooDeep? {
      return RecursionTooDeep;
    }
    r := Text(Replace(result, t.whole, included.text));
    assert IncludeMatch(registry, result, t, variables, depth) == r;
  }

  /** `processConditionals`: passes of `{if}` then `{ifnot}` rewriting until a
      pass changes nothing or ten passes are done. */
  method ProcessConditionals(template: string, variables: Variables) returns (result: string)
    ensures result == ResolveConditionals(template, variables)
  {
    ghost var total := ResolveConditionals(template, variables);
    result := template;
    var previousResult := template;
    var iterations := 0;
    while true
      invariant iterations < MaxIterations
      invariant ResolveFrom(result, variables, iterations) == total
      decreases MaxIterations - iterations
    {
      previousResult := result;
      var afterIf := RewriteBlocks(result, If, variables);
      result := RewriteBlocks(afterIf, IfNot, variables);
      ResolveStep(previousResult, variables, iterations, afterIf, result, total);
      iterations := iterations + 1;
      if result == previousResult || iterations >= MaxIterations {
        return;
      }
    }
  }

  /** `processVariables`: the matcher walks the text handed in while the
      result is rewritten. */
  method ProcessVariables(template: string, variables: Variables) returns (result: string)
    ensures result == SubstituteVariables(template, variables)
  {
    ScannedMatchesNonEmpty(template, 0, Variable);
    result := template;
    var pos := 0;
    var next := Find(template, 0, Variable);
    while next.Some?
      invariant pos <= |template|
      invariant next == Find(template, pos, Variable)
      invariant NonEmptyMatches(Tokens(template, pos, Variable))
      invariant SubstituteAll(result, Tokens(template, pos, Variable), variables) == SubstituteVariables(template, variables)
      decreases |template| - pos
    {
      var t := next.value;
      result := Replace(result, t.whole, VariableValue(variables, t));
      pos := t.end;
      next := Find(template, pos, Variable);
    }
  }

  /** One `while (matcher.find()) appendReplacement(...); appendTail(...)` loop
      over the blocks of one kind. */
  method RewriteBlocks(s: string, kind: Kind, variables: Variables) returns (r: string)
    requires kind == If || kind == IfNot
    ensures r == RewriteFrom(s, 0, kind, variables)
  {
    var buffer := "";
    var append := 0;
    var next := Find(s, 0, kind);
    while next.Some?
      invariant append <= |s|
      invariant next == Find(s, append, kind)
      invariant buffer + RewriteFrom(s, append, kind, variables) == RewriteFrom(s, 0, kind, variables)
      decreases |s| - append
    {
      var t := next.value;
      RewriteAdvance(s, append, kind, variables, t, buffer, RewriteFrom(s, 0, kind, variables));
      buffer := buffer + (s[append..t.start] + BlockReplacement(t, kind, variables));
      append := t.end;
      next := Find(s, append, kind);
    }
    RewriteTail(s, append, kind, variables);
    r := buffer + s[append..];
  }
}
