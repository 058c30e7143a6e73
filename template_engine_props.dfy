/** What `TemplateEngine.process` does with texts of known shape, and the
    properties its stages keep: the registry's case-insensitive keying, the
    condition language, the pass limit, and the depth bound on includes. */
module TemplateProps {

  import opened JavaString
  import opened TemplateRecord
  import opened TemplateTokens
  import opened Templating

  // ---------------------------------------------------------------------------
  // Texts holding a single construct

  /** A head `{keyword name}` at the start of the text, whatever follows it:
      group 1 is `name` and the brace closing it is the first one. */
  lemma HeadOfText(s: string, keyword: string, name: string)
    requires var j := |keyword|; var close := j + 1 + |name|;
             close < |s| && s[..j] == keyword && s[j] == ' ' && s[j + 1..close] == name && s[close] == '}'
    requires |name| > 0 && !IsRegexSpace(name[0])
    requires forall k :: 0 <= k < |name| ==> name[k] != '}'
    ensures HeadAt(s, 0, keyword) == Some((|keyword| + 1, |keyword| + 1 + |name|))
  {
    var j := |keyword|;
    var close := j + 1 + |name|;
    MatchesStartsWith(s, keyword, 0);
    forall k | j + 1 <= k < close ensures s[k] != '}' {
      assert s[k] == name[k - j - 1];
    }
    IndexOfCharFirst(s, '}', j + 1, close);
    assert s[j + 1] == name[0];
    assert LeadingSpaces(s, j + 1, close) == 0;
  }

  /** `{include name}` alone is one include match whose group 1 is `name`. */
  lemma SoleIncludeToken(name: string)
    requires |name| > 0 && !IsRegexSpace(name[0])
    requires forall k :: 0 <= k < |name| ==> name[k] != '}'
    ensures var s := Opening(Include) + " " + name + "}";
            Tokens(s, 0, Include) == [Token(0, |s|, s, name, None)]
  {
    var s := Opening(Include) + " " + name + "}";
    assert s[..8] == Opening(Include) && s[9..|s| - 1] == name;
    HeadOfText(s, Opening(Include), name);
    assert s[9..|s| - 1] == name;
    assert s[0..|s|] == s;
    WholeTextToken(s, Include, Token(0, |s|, s, name, None));
  }

  /** A closing tag after a body without `{` is found right after the body. */
  lemma ClosingAfterBody(s: string, closing: string, from: nat, body: string)
    requires |closing| > 0 && closing[0] == '{'
    requires from <= |s| && s[from..] == body + closing
    requires forall k :: 0 <= k < |body| ==> body[k] != '{'
    ensures IndexOf(s, closing, from) == Some(from + |body|)
  {
    var tagAt := from + |body|;
    assert s[tagAt..] == closing;
    assert s[tagAt..tagAt + |closing|] == closing;
    forall k | from <= k < tagAt ensures !StartsWithAt(s, closing, k) {
      assert s[k] == s[from..][k - from] == body[k - from];
    }
    IndexOfFirst(s, closing, from, tagAt);
  }

  /** Where the head and the closing tag of `open c}body closing` lie. */
  lemma BlockParts(s: string, open: string, closing: string, condition: string, body: string)
    requires |closing| > 0 && closing[0] == '{'
    requires |condition| > 0 && !IsRegexSpace(condition[0])
    requires forall k :: 0 <= k < |condition| ==> condition[k] != '}'
    requires forall k :: 0 <= k < |body| ==> body[k] != '{'
    requires var h := |open| + |condition| + 2;
             h <= |s| && s[..h] == open + " " + condition + "}" && s[h..] == body + closing
    ensures var h := |open| + |condition| + 2;
            && HeadAt(s, 0, open) == Some((|open| + 1, h - 1))
            && IndexOf(s, closing, h) == Some(h + |body|)
            && s[|open| + 1..h - 1] == condition
            && s[h..h + |body|] == body
            && h + |body| + |closing| == |s|
  {
    var j := |open|;
    var h := j + |condition| + 2;
    HeadPieces(s, open, condition);
    HeadOfText(s, open, condition);
    ClosingAfterBody(s, closing, h, body);
    assert s[h..h + |body|] == s[h..][..|body|];
  }

  /** The pieces of a head `open c}` that a text starts with. */
  lemma HeadPieces(s: string, open: string, condition: string)
    requires var h := |open| + |condition| + 2;
             h <= |s| && s[..h] == open + " " + condition + "}"
    ensures var j := |open|; var h := j + |condition| + 2;
            s[..j] == open && s[j] == ' ' && s[j + 1..h - 1] == condition && s[h - 1] == '}'
  {
    var j := |open|;
    var h := j + |condition| + 2;
    var head := open + " " + condition + "}";
    assert s[..j] == head[..j];
    assert s[j + 1..h - 1] == head[j + 1..h - 1];
  }

  /** The block match at the start of `{if c}body{/if}` (or its `ifnot` form). */
  lemma BlockAtStart(s: string, kind: Kind, condition: string, body: string)
    requires kind == If || kind == IfNot
    requires |condition| > 0 && !IsRegexSpace(condition[0])
    requires forall k :: 0 <= k < |condition| ==> condition[k] != '}'
    requires forall k :: 0 <= k < |body| ==> body[k] != '{'
    requires var h := |Opening(kind)| + |condition| + 2;
             h <= |s| && s[..h] == Opening(kind) + " " + condition + "}" && s[h..] == body + ClosingTag(kind)
    ensures TokenAt(s, 0, kind) == Some(Token(0, |s|, s, condition, Some(body)))
  {
    var open, closing := Opening(kind), ClosingTag(kind);
    var h := |open| + |condition| + 2;
    assert closing[0] == '{';
    BlockParts(s, open, closing, condition, body);
    BlockTokenAt(s, 0, kind, |open| + 1, h - 1, h + |body|);
    assert s[0..h + |body| + |closing|] == s;
  }

  /** `{if c}body{/if}` (or `{ifnot c}body{/ifnot}`) alone is one block match
      with the condition as group 1 and the body as group 2. */
  lemma SoleBlockToken(kind: Kind, condition: string, body: string)
    requires kind == If || kind == IfNot
    requires |condition| > 0 && !IsRegexSpace(condition[0])
    requires forall k :: 0 <= k < |condition| ==> condition[k] != '}'
    requires forall k :: 0 <= k < |body| ==> body[k] != '{'
    ensures var s := Opening(kind) + " " + condition + "}" + (body + ClosingTag(kind));
            Tokens(s, 0, kind) == [Token(0, |s|, s, condition, Some(body))]
  {
    var head := Opening(kind) + " " + condition + "}";
    var s := head + (body + ClosingTag(kind));
    assert s[..|head|] == head && s[|head|..] == body + ClosingTag(kind);
    BlockAtStart(s, kind, condition, body);
    WholeTextToken(s, kind, Token(0, |s|, s, condition, Some(body)));
  }

  /** `%name%` alone is one variable match without default. */
  lemma SoleVariableToken(name: string)
    requires |name| > 0 && forall k :: 0 <= k < |name| ==> name[k] != '%' && name[k] != '|'
    ensures var s := "%" + name + "%";
            Tokens(s, 0, Variable) == [Token(0, |s|, s, name, None)]
  {
    var s := "%" + name + "%";
    forall k | 1 <= k < |s| - 1 ensures s[k] != '%' && s[k] != '|' {
      assert s[k] == name[k - 1];
    }
    NameStopFirst(s, 1, |s| - 1);
    assert s[1..|s| - 1] == name;
    assert s[0..|s|] == s;
    WholeTextToken(s, Variable, Token(0, |s|, s, name, None));
  }

  /** `%name|default%` alone is one variable match with its default. */
  lemma SoleDefaultedVariableToken(name: string, default: string)
    requires |name| > 0 && forall k :: 0 <= k < |name| ==> name[k] != '%' && name[k] != '|'
    requires |default| > 0 && forall k :: 0 <= k < |default| ==> default[k] != '%'
    ensures var s := "%" + name + "|" + default + "%";
            Tokens(s, 0, Variable) == [Token(0, |s|, s, name, Some(default))]
  {
    var s := "%" + name + "|" + default + "%";
    var p := |name| + 1;
    forall k | 1 <= k < p ensures s[k] != '%' && s[k] != '|' {
      assert s[k] == name[k - 1];
    }
    NameStopFirst(s, 1, p);
    forall k | p + 1 <= k < |s| - 1 ensures s[k] != '%' {
      assert s[k] == default[k - p - 1];
    }
    IndexOfCharFirst(s, '%', p + 1, |s| - 1);
    assert s[1..p] == name;
    assert s[p + 1..|s| - 1] == default;
    assert s[0..|s|] == s;
    WholeTextToken(s, Variable, Token(0, |s|, s, name, Some(default)));
  }

  // ---------------------------------------------------------------------------
  // processVariables

  /** `%name%` alone becomes the value of the trimmed name, or "" when that
      value is missing or empty. */
  lemma SoleVariable(name: string, variables: Variables)
    requires |name| > 0 && forall k :: 0 <= k < |name| ==> name[k] != '%' && name[k] != '|'
    ensures var key := Trim(name);
            SubstituteVariables("%" + name + "%", variables)
            == if key in variables && variables[key] != "" then variables[key] else ""
  {
    var s := "%" + name + "%";
    var t := Token(0, |s|, s, name, None);
    SoleVariableToken(name);
    assert [t][1..] == [];
    ReplaceWhole(s, VariableValue(variables, t));
    assert SubstituteVariables(s, variables) == SubstituteAll(s, [t], variables);
  }

  /** `%name|default%` alone becomes the value of the trimmed name, or the
      default when that value is missing or empty. */
  lemma SoleDefaultedVariable(name: string, default: string, variables: Variables)
    requires |name| > 0 && forall k :: 0 <= k < |name| ==> name[k] != '%' && name[k] != '|'
    requires |default| > 0 && forall k :: 0 <= k < |default| ==> default[k] != '%'
    ensures var key := Trim(name);
            SubstituteVariables("%" + name + "|" + default + "%", variables)
            == if key in variables && variables[key] != "" then variables[key] else default
  {
    var s := "%" + name + "|" + default + "%";
    var t := Token(0, |s|, s, name, Some(default));
    SoleDefaultedVariableToken(name, default);
    assert [t][1..] == [];
    ReplaceWhole(s, VariableValue(variables, t));
    assert SubstituteVariables(s, variables) == SubstituteAll(s, [t], variables);
  }

  // ---------------------------------------------------------------------------
  // processConditionals

  /** A rewriting loop that finds no block hands the text back unchanged. */
  lemma NoBlockNoRewrite(s: string, kind: Kind, variables: Variables)
    requires kind == If || kind == IfNot
    requires forall k :: 0 <= k < |s| ==> s[k] != '{'
    ensures RewriteFrom(s, 0, kind, variables) == s
  {
    PlainBlocksFree(s, kind);
    RewriteTail(s, 0, kind, variables);
  }

  /** Text without `{` holds no block of either kind. */
  lemma PlainBlocksFree(s: string, kind: Kind)
    requires kind == If || kind == IfNot
    requires forall k :: 0 <= k < |s| ==> s[k] != '{'
    ensures Find(s, 0, kind).None?
  {
    NoCharNoOpening(s, '{', kind);
    NoOpeningNoTokens(s, 0, kind);
  }

  /** `{if c}body{/if}` alone rewrites to the body when the trimmed condition
      holds and to "" otherwise; `{ifnot c}body{/ifnot}` is the complement. */
  lemma SoleBlockRewrite(kind: Kind, condition: string, body: string, variables: Variables)
    requires kind == If || kind == IfNot
    requires |condition| > 0 && !IsRegexSpace(condition[0])
    requires forall k :: 0 <= k < |condition| ==> condition[k] != '}'
    requires forall k :: 0 <= k < |body| ==> body[k] != '{'
    ensures var s := Opening(kind) + " " + condition + "}" + (body + ClosingTag(kind));
            RewriteFrom(s, 0, kind, variables)
            == if (kind == If) == EvaluateCondition(Trim(condition), variables) then body else ""
  {
    var head := Opening(kind) + " " + condition + "}";
    var s := head + (body + ClosingTag(kind));
    var t := Token(0, |s|, s, condition, Some(body));
    assert s[..|head|] == head && s[|head|..] == body + ClosingTag(kind);
    BlockAtStart(s, kind, condition, body);
    assert Find(s, 0, kind) == Some(t);
    WholeTextRewrite(s, kind, variables, t);
  }

  /** A text that is one block rewrites to that block's replacement. */
  lemma WholeTextRewrite(s: string, kind: Kind, variables: Variables, t: Token)
    requires kind == If || kind == IfNot
    requires Find(s, 0, kind) == Some(t) && t.start == 0 && t.end == |s|
    ensures RewriteFrom(s, 0, kind, variables) == BlockReplacement(t, kind, variables)
  {
    RewriteStep(s, 0, kind, variables, t);
    RewriteTail(s, |s|, kind, variables);
    assert s[0..0] == [] && s[|s|..] == [];
  }

  /** Exactly one of `{if c}` and `{ifnot c}` keeps a given body. */
  lemma BlocksComplement(t: Token, variables: Variables)
    requires t.group2.Some?
    ensures BlockReplacement(t, If, variables) + BlockReplacement(t, IfNot, variables) == t.group2.value
  {
  }

  /** `n` passes applied one after another. */
  function Passes(s: string, variables: Variables, n: nat): string
    decreases n
  {
    if n == 0 then s else ConditionalPass(Passes(s, variables, n - 1), variables)
  }

  /** From the `i`-th pass on, the loop runs until the `k`-th pass, the first
      that changes nothing or the tenth. */
  lemma {:induction false} ResolveFromPasses(s: string, variables: Variables, i: nat, k: nat)
    requires i < k <= MaxIterations
    requires k == MaxIterations || Passes(s, variables, k) == Passes(s, variables, k - 1)
    requires forall j :: i < j < k ==> Passes(s, variables, j) != Passes(s, variables, j - 1)
    ensures ResolveFrom(Passes(s, variables, i), variables, i) == Passes(s, variables, k)
    decreases k - i
  {
    var p := Passes(s, variables, i);
    var q := Passes(s, variables, i + 1);
    assert q == ConditionalPass(p, variables);
    assert ResolveFrom(p, variables, i) == LoopTest(p, q, variables, i + 1) by {
      assert ResolveFrom(p, variables, i) == PassStep(p, p, variables, i);
    }
    if i + 1 < k {
      assert q != p;
      ResolveFromPasses(s, variables, i + 1, k);
      assert LoopTest(p, q, variables, i + 1) == ResolveFrom(q, variables, i + 1);
    } else {
      assert LoopTest(p, q, variables, i + 1) == q;
    }
  }

  /** `processConditionals` returns the text after the first pass that
      changes nothing, or after the tenth pass, whichever comes first. */
  lemma ResolveIsFirstStop(s: string, variables: Variables, k: nat)
    requires 0 < k <= MaxIterations
    requires k == MaxIterations || Passes(s, variables, k) == Passes(s, variables, k - 1)
    requires forall j :: 0 < j < k ==> Passes(s, variables, j) != Passes(s, variables, j - 1)
    ensures ResolveConditionals(s, variables) == Passes(s, variables, k)
  {
    ResolveFromPasses(s, variables, 0, k);
  }

  /** Text that one pass leaves unchanged comes back as it is. */
  lemma FixpointResolvesToItself(s: string, variables: Variables)
    requires ConditionalPass(s, variables) == s
    ensures ResolveConditionals(s, variables) == s
  {
    assert ResolveFrom(s, variables, 0) == PassStep(s, s, variables, 0);
  }

  /** `{if c}body{/if}` alone, with a body free of blocks, resolves to the
      body when the trimmed condition holds and to "" otherwise. */
  lemma SoleIfBlockResolves(condition: string, body: string, variables: Variables)
    requires |condition| > 0 && !IsRegexSpace(condition[0])
    requires forall k :: 0 <= k < |condition| ==> condition[k] != '}'
    requires forall k :: 0 <= k < |body| ==> body[k] != '{'
    ensures var s := Opening(If) + " " + condition + "}" + (body + ClosingTag(If));
            ResolveConditionals(s, variables)
            == if EvaluateCondition(Trim(condition), variables) then body else ""
  {
    var s := Opening(If) + " " + condition + "}" + (body + ClosingTag(If));
    var r := if EvaluateCondition(Trim(condition), variables) then body else "";
    SoleBlockRewrite(If, condition, body, variables);
    NoBlockNoRewrite(r, IfNot, variables);
    NoBlockNoRewrite(r, If, variables);
    assert ConditionalPass(s, variables) == r;
    assert ConditionalPass(r, variables) == r;
    assert r != s by {
      assert |r| < |s|;
    }
    assert ResolveFrom(s, variables, 0) == LoopTest(s, r, variables, 1) by {
      assert ResolveFrom(s, variables, 0) == PassStep(s, s, variables, 0);
    }
    assert ResolveFrom(r, variables, 1) == r by {
      assert ResolveFrom(r, variables, 1) == PassStep(r, r, variables, 1);
    }
  }

  // ---------------------------------------------------------------------------
  // evaluateCondition

  /** Lower-casing leaves text without capital letters as it is. */
  lemma LowerOfLower(s: string)
    requires forall i :: 0 <= i < |s| ==> !('A' <= s[i] <= 'Z')
    ensures ToLower(s) == s
  {
  }

  /** A condition that is, trimmed, exactly a variable key is true iff the
      value is non-empty and not, ignoring case, "false", "0" or "no". */
  lemma KeyCondition(condition: string, variables: Variables)
    requires Trim(condition) in variables
    ensures var v := variables[Trim(condition)];
            EvaluateCondition(condition, variables)
            <==> v != "" && ToLower(v) != "false" && ToLower(v) != "0" && ToLower(v) != "no"
  {
    LowerOfLower("false");
    LowerOfLower("0");
    LowerOfLower("no");
  }

  /** A trimmed condition `a==v` that is not itself a key, split at its
      first `==`, compares the value of the trimmed `a` ("" when absent) with
      the trimmed, unquoted `v`; `a` and `v` may be empty or hold `=`. */
  lemma EqualityCondition(condition: string, a: string, v: string, variables: Variables)
    requires Trim(condition) == a + "==" + v && Trim(condition) !in variables
    requires IndexOf(Trim(condition), "==", 0) == Some(|a|)
    ensures EvaluateCondition(condition, variables)
            <==> ValueOrEmpty(variables, Trim(a)) == StripQuotes(Trim(v))
  {
    var c := Trim(condition);
    assert c[..|a|] == a && c[|a| + 2..] == v;
  }

  /** A trimmed condition `a!=v` with no `==` that is not itself a key, split
      at its first `!=`, is the negation of that comparison. */
  lemma InequalityCondition(condition: string, a: string, v: string, variables: Variables)
    requires Trim(condition) == a + "!=" + v && Trim(condition) !in variables
    requires !Contains(Trim(condition), "==")
    requires IndexOf(Trim(condition), "!=", 0) == Some(|a|)
    ensures EvaluateCondition(condition, variables)
            <==> ValueOrEmpty(variables, Trim(a)) != StripQuotes(Trim(v))
  {
    var c := Trim(condition);
    assert c[..|a|] == a && c[|a| + 2..] == v;
  }

  /** With no `=` in `a` or `v` and nothing to trim around them, `a!=v`
      splits right after `a`. */
  lemma PlainInequality(a: string, v: string, variables: Variables)
    requires |a| > 0 && !IsTrimmable(a[0]) && forall k :: 0 <= k < |a| ==> a[k] != '='
    requires |v| > 0 && !IsTrimmable(v[|v| - 1]) && forall k :: 0 <= k < |v| ==> v[k] != '='
    requires a + "!=" + v !in variables
    ensures EvaluateCondition(a + "!=" + v, variables)
            <==> ValueOrEmpty(variables, Trim(a)) != StripQuotes(Trim(v))
  {
    var c := a + "!=" + v;
    TrimOfTrimmed(c);
    OperatorAfter(a, "!=", v);
    forall k | 0 <= k < |c| - 1 ensures !(c[k] == '=' && c[k + 1] == '=') {
      if k < |a| {
        assert c[k] == a[k];
      } else if k == |a| {
        assert c[k] == '!';
      } else {
        assert c[k + 1] == v[k + 1 - |a| - 2];
      }
    }
    NoDoubleEquals(c);
    InequalityCondition(c, a, v, variables);
  }

  /** `{if x==}` tests for an empty or missing value. */
  lemma EmptyComparison(variables: Variables)
    requires "x==" !in variables
    ensures EvaluateCondition("x==", variables) <==> ValueOrEmpty(variables, "x") == ""
  {
    TrimOfTrimmed("x==");
    OperatorAfter("x", "==", "");
    assert "x" + "==" + "" == "x==";
    EqualityCondition("x==", "x", "", variables);
    assert Trim("x") == "x" by { TrimOfTrimmed("x"); }
  }

  /** `x=y==z` splits at its first `==`: the key is `x=y`. */
  lemma SplitAtFirstEquals(variables: Variables)
    requires "x=y==z" !in variables
    ensures EvaluateCondition("x=y==z", variables) <==> ValueOrEmpty(variables, "x=y") == "z"
  {
    TrimOfTrimmed("x=y==z");
    assert "x=y" + "==" + "z" == "x=y==z";
    assert IndexOf("x=y==z", "==", 0) == Some(3);
    EqualityCondition("x=y==z", "x=y", "z", variables);
    TrimOfTrimmed("x=y");
    TrimOfTrimmed("z");
  }

  /** Text with no two `=` in a row does not contain `==`. */
  lemma NoDoubleEquals(c: string)
    requires forall k :: 0 <= k < |c| - 1 ==> !(c[k] == '=' && c[k + 1] == '=')
    ensures !Contains(c, "==")
  {
    forall k | 0 <= k ensures !StartsWithAt(c, "==", k) {
      if k + 2 <= |c| {
        var w := c[k..k + 2];
        assert w[0] == c[k] && w[1] == c[k + 1];
      }
    }
    IndexOfSpec(c, "==", 0);
  }

  /** The first occurrence of a two-character operator starting with `!` or
      `=` after a text without `=` is right after that text. */
  lemma OperatorAfter(a: string, op: string, v: string)
    requires op == "==" || op == "!="
    requires forall k :: 0 <= k < |a| ==> a[k] != '='
    ensures IndexOf(a + op + v, op, 0) == Some(|a|)
  {
    var c := a + op + v;
    assert c[|a|..|a| + 2] == op;
    forall j | 0 <= j < |a| ensures !StartsWithAt(c, op, j) {
      var w := c[j..j + 2];
      if op == "==" {
        assert w[0] == a[j];
      } else if j + 1 < |a| {
        assert w[1] == a[j + 1];
      } else {
        assert w[1] == '!';
      }
    }
    IndexOfFirst(c, op, 0, |a|);
  }

  /** Any other condition is false. */
  lemma OtherConditionFalse(condition: string, variables: Variables)
    requires Trim(condition) !in variables
    requires !Contains(Trim(condition), "==") && !Contains(Trim(condition), "!=")
    ensures !EvaluateCondition(condition, variables)
  {
  }

  /** One leading and one trailing quote, of either kind, are dropped. */
  lemma StripQuotesQuoted(open: char, v: string, close: char)
    requires IsQuote(open) && IsQuote(close)
    ensures StripQuotes([open] + v + [close]) == v
  {
    var e := [open] + v + [close];
    assert e[1..|e| - 1] == v;
    assert e[|e|..] == [];
  }

  // ---------------------------------------------------------------------------
  // processIncludes and process

  /** Include matches whose names are not registered leave the text as it is. */
  lemma {:induction false} UnregisteredIncludesKept(registry: Registry, result: string, ts: seq<Token>,
                                                    variables: Variables, depth: nat)
    requires NonEmptyMatches(ts)
    requires forall t :: t in ts ==> IncludeKey(t) !in registry
    ensures SpliceIncludes(registry, result, ts, variables, depth) == Text(result)
    decreases |ts|
  {
    if ts != [] {
      assert ts[0] in ts;
      UnregisteredIncludesKept(registry, result, ts[1..], variables, depth);
    }
  }

  /** `{include name}` alone becomes the registered template (looked up by the
      trimmed, lower-cased name) processed with the same variables; an
      unregistered name leaves the text as it is. */
  lemma SoleInclude(registry: Registry, name: string, variables: Variables, depth: nat)
    requires |name| > 0 && !IsRegexSpace(name[0])
    requires forall k :: 0 <= k < |name| ==> name[k] != '}'
    ensures var s := Opening(Include) + " " + name + "}";
            var key := ToLower(Trim(name));
            ExpandIncludes(registry, s, variables, depth)
            == if key !in registry then Text(s)
               else if depth == 0 then RecursionTooDeep
               else ProcessText(registry, registry[key].content, variables, depth - 1)
  {
    var s := Opening(Include) + " " + name + "}";
    var t := Token(0, |s|, s, name, None);
    SoleIncludeToken(name);
    SpliceOne(registry, s, t, variables, depth);
    var key := IncludeKey(t);
    if key in registry && depth > 0 {
      var included := ProcessText(registry, registry[key].content, variables, depth - 1);
      if included.Text? {
        ReplaceWhole(s, included.text);
      }
    }
  }

  /** A single match list splices exactly that match. */
  lemma SpliceOne(registry: Registry, result: string, t: Token, variables: Variables, depth: nat)
    requires |t.whole| > 0
    ensures SpliceIncludes(registry, result, [t], variables, depth) == IncludeMatch(registry, result, t, variables, depth)
  {
    assert [t][1..] == [];
  }

  /** `{include name}` standing at `i` is an include match there whose
      group 1 is `name`. */
  lemma IncludeTokenAt(s: string, i: nat, name: string, w: string)
    requires |name| > 0 && !IsRegexSpace(name[0])
    requires forall k :: 0 <= k < |name| ==> name[k] != '}'
    requires w == Opening(Include) + " " + name + "}"
    requires i + |w| <= |s| && s[i..i + |w|] == w
    ensures TokenAt(s, i, Include) == Some(Token(i, i + |w|, w, name, None))
  {
    IncludePieces(s, i, name, w);
    IncludeHeadAt(s, i, name);
  }

  /** Where the keyword, the blank, the name and the brace of an include
      text standing at `i` lie. */
  lemma IncludePieces(s: string, i: nat, name: string, w: string)
    requires w == Opening(Include) + " " + name + "}"
    requires i + |w| <= |s| && s[i..i + |w|] == w
    ensures |w| == 10 + |name|
    ensures StartsWithAt(s, Opening(Include), i) && s[i + 8] == ' '
    ensures s[i + 9..i + 9 + |name|] == name && s[i + 9 + |name|] == '}'
  {
    var kw := Opening(Include);
    assert w[..8] == kw && w[8] == ' ' && w[9..9 + |name|] == name && w[9 + |name|] == '}';
    assert s[i..i + 8] == s[i..i + |w|][..8];
    forall k | 0 <= k < |name| ensures s[i + 9..i + 9 + |name|][k] == name[k] {
      assert s[i + 9 + k] == s[i..i + |w|][9 + k] == w[9..9 + |name|][k];
    }
    assert s[i + 8] == s[i..i + |w|][8];
    assert s[i + 9 + |name|] == s[i..i + |w|][9 + |name|];
  }

  /** The head of an include whose name starts with a non-blank and holds
      no `}`: group 1 is exactly the name. */
  lemma IncludeHeadAt(s: string, i: nat, name: string)
    requires |name| > 0 && !IsRegexSpace(name[0])
    requires forall k :: 0 <= k < |name| ==> name[k] != '}'
    requires i + 10 + |name| <= |s|
    requires StartsWithAt(s, Opening(Include), i) && s[i + 8] == ' '
    requires s[i + 9..i + 9 + |name|] == name && s[i + 9 + |name|] == '}'
    ensures HeadAt(s, i, Opening(Include)) == Some((i + 9, i + 9 + |name|))
  {
    var j := i + 8;
    var close := i + 9 + |name|;
    MatchesStartsWith(s, Opening(Include), i);
    forall k | j + 1 <= k < close ensures s[k] != '}' {
      assert s[k] == s[j + 1..close][k - j - 1];
    }
    IndexOfCharFirst(s, '}', j + 1, close);
    assert s[j + 1] == name[0];
    assert LeadingSpaces(s, j + 1, close) == 0;
  }

  /** No include match starts at a character other than `{`. */
  lemma NoIncludeWithoutBrace(s: string, p: string, k: nat)
    requires |p| < |s| && p == s[..|p|] && s[|p|] == '{'
    requires forall j :: 0 <= j < |p| ==> !StartsWithAt(p, Opening(Include), j)
    requires k < |p|
    ensures TokenAt(s, k, Include).None?
  {
    if TokenAt(s, k, Include).Some? {
      TokenAtOpening(s, k, Include);
      var kw := Opening(Include);
      if k + |kw| <= |p| {
        assert p[k..k + |kw|] == s[k..k + |kw|];
        assert StartsWithAt(p, kw, k);
      }
    }
  }

  /** No include match starts inside a prefix in which `{include` does not
      occur, when a `{` follows it (a match cannot reach across that `{`). */
  lemma NoIncludeInPrefix(s: string, p: string)
    requires |p| < |s| && p == s[..|p|] && s[|p|] == '{'
    requires forall j :: 0 <= j < |p| ==> !StartsWithAt(p, Opening(Include), j)
    ensures forall k :: 0 <= k < |p| ==> TokenAt(s, k, Include).None?
  {
    forall k | 0 <= k < |p| ensures TokenAt(s, k, Include).None? {
      NoIncludeWithoutBrace(s, p, k);
    }
  }

  /** An include match right after a prefix in which `{include` does not
      occur is the first one scanned. */
  lemma FirstIncludeAfterPrefix(s: string, p: string, t: Token)
    requires |p| < |s| && p == s[..|p|] && s[|p|] == '{'
    requires forall j :: 0 <= j < |p| ==> !StartsWithAt(p, Opening(Include), j)
    requires t.start == |p| && TokenAt(s, |p|, Include) == Some(t)
    ensures Tokens(s, 0, Include) == [t] + Tokens(s, t.end, Include)
  {
    NoIncludeInPrefix(s, p);
    FirstMatchAt(s, Include, t);
  }

  lemma ThreePieces(p: string, w: string, q: string)
    requires |w| > 0
    ensures (p + w + q)[..|p|] == p && (p + w + q)[|p|..|p| + |w|] == w && (p + w + q)[|p|] == w[0]
  {
    assert p + w + q == p + (w + q);
  }

  /** An include match `w` that only text without `{include` precedes is
      the first include match `processIncludes` meets. */
  lemma FirstIncludeAfterText(p: string, w: string, q: string, t: Token)
    requires forall j :: 0 <= j < |p| ==> !StartsWithAt(p, Opening(Include), j)
    requires |w| > 0 && w[0] == '{'
    requires t.start == |p| && TokenAt(p + w + q, |p|, Include) == Some(t)
    ensures Tokens(p + w + q, 0, Include) == [t] + Tokens(p + w + q, t.end, Include)
  {
    ThreePieces(p, w, q);
    FirstIncludeAfterPrefix(p + w + q, p, t);
  }

  /** A template whose first include, after text without `{include`, names
      the template itself never finishes: whatever the depth, the nesting
      runs out, whatever follows that include. */
  lemma SelfIncludeTooDeep(registry: Registry, p: string, name: string, q: string, variables: Variables, depth: nat)
    requires forall j :: 0 <= j < |p| ==> !StartsWithAt(p, Opening(Include), j)
    requires |name| > 0 && !IsRegexSpace(name[0])
    requires forall k :: 0 <= k < |name| ==> name[k] != '}'
    requires var key := ToLower(Trim(name));
             key in registry && registry[key].content == p + Opening(Include) + " " + name + "}" + q
    ensures ProcessText(registry, p + Opening(Include) + " " + name + "}" + q, variables, depth) == RecursionTooDeep
  {
    var w := Opening(Include) + " " + name + "}";
    var t := Token(|p|, |p| + |w|, w, name, None);
    assert p + w + q == p + Opening(Include) + " " + name + "}" + q;
    ThreePieces(p, w, q);
    IncludeTokenAt(p + w + q, |p|, name, w);
    FirstIncludeAfterText(p, w, q, t);
    SelfIncludeLoop(registry, p + w + q, t, variables, depth);
  }

  /** A text whose first include match names the text itself runs out of
      depth at every depth. */
  lemma SelfIncludeLoop(registry: Registry, s: string, t: Token, variables: Variables, depth: nat)
    requires s != [] && |t.whole| > 0
    requires Tokens(s, 0, Include) == [t] + Tokens(s, t.end, Include)
    requires IncludeKey(t) in registry && registry[IncludeKey(t)].content == s
    ensures ProcessText(registry, s, variables, depth) == RecursionTooDeep
  {
    SelfIncludeMatch(registry, s, t, variables, 0);
    FirstIncludeTooDeep(registry, s, t, variables, 0);
    forall d: nat | ProcessText(registry, s, variables, d) == RecursionTooDeep
      ensures ExpandIncludes(registry, s, variables, d + 1) == RecursionTooDeep
    {
      SelfIncludeMatch(registry, s, t, variables, d + 1);
      FirstIncludeTooDeep(registry, s, t, variables, d + 1);
    }
    DefersToItself(registry, s, variables, depth);
  }

  /** One level of a self-include: it fails when the level below does. */
  lemma SelfIncludeMatch(registry: Registry, s: string, t: Token, variables: Variables, depth: nat)
    requires |t.whole| > 0
    requires IncludeKey(t) in registry && registry[IncludeKey(t)].content == s
    requires depth > 0 ==> ProcessText(registry, s, variables, depth - 1) == RecursionTooDeep
    ensures IncludeMatch(registry, s, t, variables, depth) == RecursionTooDeep
  {
  }

  /** When the first include match of a text runs out of depth, so does
      the include stage. */
  lemma FirstIncludeTooDeep(registry: Registry, s: string, t: Token, variables: Variables, depth: nat)
    requires |t.whole| > 0
    requires Tokens(s, 0, Include) == [t] + Tokens(s, t.end, Include)
    requires IncludeMatch(registry, s, t, variables, depth) == RecursionTooDeep
    ensures ExpandIncludes(registry, s, variables, depth) == RecursionTooDeep
  {
    ScannedMatchesNonEmpty(s, 0, Include);
    var ts := Tokens(s, 0, Include);
    assert ts[0] == t;
    assert SpliceIncludes(registry, s, ts, variables, depth) == RecursionTooDeep;
  }

  /** A text whose include stage runs out of depth at depth 0, and one level
      up whenever processing it does, runs out of depth at every depth. */
  lemma {:induction false} DefersToItself(registry: Registry, s: string, variables: Variables, depth: nat)
    requires s != []
    requires ExpandIncludes(registry, s, variables, 0) == RecursionTooDeep
    requires forall d: nat :: ProcessText(registry, s, variables, d) == RecursionTooDeep ==>
                              ExpandIncludes(registry, s, variables, d + 1) == RecursionTooDeep
    ensures ProcessText(registry, s, variables, depth) == RecursionTooDeep
    decreases depth
  {
    if depth > 0 {
      var d := depth - 1;
      DefersToItself(registry, s, variables, d);
      assert ExpandIncludes(registry, s, variables, d + 1) == RecursionTooDeep;
    }
    IncludesTooDeep(registry, s, variables, depth);
  }

  /** Running out of depth while expanding includes ends the whole processing. */
  lemma IncludesTooDeep(registry: Registry, s: string, variables: Variables, depth: nat)
    requires ExpandIncludes(registry, s, variables, depth) == RecursionTooDeep
    ensures ProcessText(registry, s, variables, depth) == RecursionTooDeep
  {
  }

  /** Text without `{` and `%` comes back unchanged. */
  lemma PlainTextUnchanged(registry: Registry, s: string, variables: Variables, depth: nat)
    requires forall k :: 0 <= k < |s| ==> s[k] != '{' && s[k] != '%'
    ensures ProcessText(registry, s, variables, depth) == Text(s)
  {
    PlainTextHasNoTokens(s, Include);
    assert ExpandIncludes(registry, s, variables, depth) == Text(s);
    NoBlockNoRewrite(s, If, variables);
    NoBlockNoRewrite(s, IfNot, variables);
    assert ConditionalPass(s, variables) == s;
    FixpointResolvesToItself(s, variables);
    PlainTextHasNoTokens(s, Variable);
    assert SubstituteVariables(s, variables) == s;
  }

  /** An empty template comes back as it is. */
  lemma EmptyTemplateUnchanged(registry: Registry, variables: Variables, depth: nat)
    ensures ProcessText(registry, "", variables, depth) == Text("")
  {
  }

  /** More nesting depth changes nothing once processing finishes: the bound
      only cuts off include chains, it never alters a result. */
  lemma {:induction false} ProcessDeeper(registry: Registry, s: string, variables: Variables, depth: nat)
    requires ProcessText(registry, s, variables, depth).Text?
    ensures ProcessText(registry, s, variables, depth + 1) == ProcessText(registry, s, variables, depth)
    decreases depth, 3
  {
    if s != [] {
      ScannedMatchesNonEmpty(s, 0, Include);
      SpliceDeeper(registry, s, Tokens(s, 0, Include), variables, depth);
    }
  }

  lemma {:induction false} SpliceDeeper(registry: Registry, result: string, ts: seq<Token>,
                                        variables: Variables, depth: nat)
    requires NonEmptyMatches(ts)
    requires SpliceIncludes(registry, result, ts, variables, depth).Text?
    ensures SpliceIncludes(registry, result, ts, variables, depth + 1)
            == SpliceIncludes(registry, result, ts, variables, depth)
    decreases depth, 1, |ts|
  {
    if ts != [] {
      IncludeDeeper(registry, result, ts[0], variables, depth);
      var next := IncludeMatch(registry, result, ts[0], variables, depth);
      SpliceDeeper(registry, next.text, ts[1..], variables, depth);
    }
  }

  lemma {:induction false} IncludeDeeper(registry: Registry, result: string, t: Token, variables: Variables, depth: nat)
    requires |t.whole| > 0
    requires IncludeMatch(registry, result, t, variables, depth).Text?
    ensures IncludeMatch(registry, result, t, variables, depth + 1) == IncludeMatch(registry, result, t, variables, depth)
    decreases depth, 0
  {
    var key := IncludeKey(t);
    if key in registry {
      assert depth > 0;
      var d: nat := depth - 1;
      IncludeUnfold(registry, result, t, variables, d);
      IncludeUnfold(registry, result, t, variables, depth);
      var p := ProcessText(registry, registry[key].content, variables, d);
      assert IncludeMatch(registry, result, t, variables, depth) == Spliced(result, t, p);
      assert p.Text?;
      ProcessDeeper(registry, registry[key].content, variables, d);
      assert ProcessText(registry, registry[key].content, variables, depth) == p;
    } else {
      assert IncludeMatch(registry, result, t, variables, depth + 1) == Text(result);
    }
  }

  /** A nested result spliced in for the match, or the recursion cut-off passed on. */
  function Spliced(result: string, t: Token, p: Processed): Processed
    requires |t.whole| > 0
  {
    match p
    case RecursionTooDeep => RecursionTooDeep
    case Text(included) => Text(Replace(result, t.whole, included))
  }

  /** One include match, with the nested processing named. */
  lemma IncludeUnfold(registry: Registry, result: string, t: Token, variables: Variables, depth: nat)
    requires |t.whole| > 0 && IncludeKey(t) in registry
    ensures IncludeMatch(registry, result, t, variables, depth + 1)
            == Spliced(result, t, ProcessText(registry, registry[IncludeKey(t)].content, variables, depth))
  {
  }

  // ---------------------------------------------------------------------------
  // The registry

  /** Lookups ignore case. */
  lemma LookupIgnoresCase(registry: Registry, a: string, b: string)
    requires EqualsIgnoreCase(a, b)
    ensures Lookup(registry, a) == Lookup(registry, b)
  {
  }

  /** A registered template is found under its name in any case. */
  lemma RegisterThenLookup(registry: Registry, t: Template, name: string)
    requires EqualsIgnoreCase(name, t.name)
    ensures Lookup(Register(registry, t), name) == Some(t)
  {
  }

  /** Registering leaves every other name as it was. */
  lemma RegisterKeepsOthers(registry: Registry, t: Template, name: string)
    requires !EqualsIgnoreCase(name, t.name)
    ensures Lookup(Register(registry, t), name) == Lookup(registry, name)
  {
  }

  /** Registering a name again, in any case, overwrites the earlier template. */
  lemma ReRegisterOverwrites(registry: Registry, first: Template, second: Template)
    requires EqualsIgnoreCase(first.name, second.name)
    ensures Register(Register(registry, first), second) == Register(registry, second)
  {
  }

  /** After unregistering a name, looking it up in any case finds nothing. */
  lemma UnregisterThenLookup(registry: Registry, name: string, other: string)
    requires EqualsIgnoreCase(name, other)
    ensures Lookup(Unregister(registry, name), other).None?
  {
  }

  /** Unregistering an absent name changes nothing. */
  lemma UnregisterAbsent(registry: Registry, name: string)
    requires Lookup(registry, name).None?
    ensures Unregister(registry, name) == registry
  {
  }
}
