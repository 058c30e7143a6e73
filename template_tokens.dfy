/** The four fixed regular expressions of TemplateEngine.java, written out as
    scanners that give exactly the spans and capture groups `Matcher.find()`
    reports for them:

      INCLUDE_PATTERN         \{include\s+([^}]+)\}
      CONDITIONAL_PATTERN     \{if\s+([^}]+)\}(.*?)\{/if\}         (DOTALL)
      CONDITIONAL_NOT_PATTERN \{ifnot\s+([^}]+)\}(.*?)\{/ifnot\}   (DOTALL)
      VARIABLE_PATTERN        %([^%|]+)(?:\|([^%]+))?%
*/
module TemplateTokens {

  import opened JavaString

  datatype Kind = Include | If | IfNot | Variable

  /** One match: its span [start, end), the matched text (group 0), group 1,
      and group 2 (the body of a block, the default of a variable, absent for
      an include or a variable without default). */
  datatype Token = Token(start: nat, end: nat, whole: string, group1: string, group2: Option<string>)

  /** The literal that opens a match of each kind. */
  function Opening(kind: Kind): (r: string)
    ensures |r| > 0
  {
    match kind
    case Include => "{include"
    case If => "{if"
    case IfNot => "{ifnot"
    case Variable => "%"
  }

  /** The literal that closes a conditional block. */
  function ClosingTag(kind: Kind): (r: string)
    requires kind == If || kind == IfNot
    ensures |r| > 0
  {
    if kind == If then "{/if}" else "{/ifnot}"
  }

  predicate WellFormed(s: string, t: Token) {
    t.start < t.end <= |s| && t.whole == s[t.start..t.end]
  }

  /** The number of `\s` characters from `j` on, stopping at `limit`. */
  function LeadingSpaces(s: string, j: nat, limit: nat): (n: nat)
    requires j <= limit <= |s|
    ensures j + n <= limit
    decreases limit - j
  {
    if j < limit && IsRegexSpace(s[j]) then 1 + LeadingSpaces(s, j + 1, limit) else 0
  }

  /** `LeadingSpaces` counts the whole run of `\s` characters and no more. */
  lemma {:induction false} LeadingSpacesSpec(s: string, j: nat, limit: nat)
    requires j <= limit <= |s|
    ensures forall k :: j <= k < j + LeadingSpaces(s, j, limit) ==> IsRegexSpace(s[k])
    ensures j + LeadingSpaces(s, j, limit) < limit ==> !IsRegexSpace(s[j + LeadingSpaces(s, j, limit)])
    decreases limit - j
  {
    if j < limit && IsRegexSpace(s[j]) {
      LeadingSpacesSpec(s, j + 1, limit);
    }
  }

  /** `\{keyword\s+([^}]+)\}` anchored at `i`: the start of group 1 and the
      position of the closing brace. `[^}]+` cannot cross a brace, so the head
      ends at the first `}`; greedy `\s+` gives back one character to group 1
      when only blanks stand before that brace. */
  function HeadAt(s: string, i: nat, keyword: string): (r: Option<(nat, nat)>)
    ensures r.Some? ==> i + |keyword| < r.value.0 < r.value.1 < |s| && s[r.value.1] == '}'
  {
    var j := i + |keyword|;
    if !(MatchesFrom(s, keyword, i, 0) && j < |s| && IsRegexSpace(s[j])) then None
    else
      match IndexOfChar(s, '}', j + 1)
      case None => None
      case Some(close) =>
        if close < j + 2 then None
        else
          var spaces := LeadingSpaces(s, j, close);
          Some((j + if spaces < close - j - 1 then spaces else close - j - 1, close))
  }

  /** A head starts with the keyword and a blank, and its first `}` closes it. */
  lemma HeadAtSpec(s: string, i: nat, keyword: string)
    requires HeadAt(s, i, keyword).Some?
    ensures StartsWithAt(s, keyword, i) && IsRegexSpace(s[i + |keyword|])
    ensures forall k :: i + |keyword| <= k < HeadAt(s, i, keyword).value.1 ==> s[k] != '}'
  {
    MatchesStartsWith(s, keyword, i);
    IndexOfCharSpec(s, '}', i + |keyword| + 1);
  }

  /** The first `%` or `|` at or after `from`: where `[^%|]+` stops. */
  function NameStop(s: string, from: nat): (r: Option<nat>)
    ensures r.Some? ==> from <= r.value < |s| && (s[r.value] == '%' || s[r.value] == '|')
    decreases |s| - from
  {
    if from >= |s| then None
    else if s[from] == '%' || s[from] == '|' then Some(from)
    else NameStop(s, from + 1)
  }

  /** No `%` or `|` stands between `from` and where the name stops. */
  lemma {:induction false} NameStopSpec(s: string, from: nat)
    ensures NameStop(s, from).Some? ==> forall k :: from <= k < NameStop(s, from).value ==> s[k] != '%' && s[k] != '|'
    ensures NameStop(s, from).None? ==> forall k :: from <= k < |s| ==> s[k] != '%' && s[k] != '|'
    decreases |s| - from
  {
    if from < |s| && s[from] != '%' && s[from] != '|' {
      NameStopSpec(s, from + 1);
    }
  }

  /** The first `%` or `|` at or after `from` is where the name stops. */
  lemma {:induction false} NameStopFirst(s: string, from: nat, p: nat)
    requires from <= p < |s| && (s[p] == '%' || s[p] == '|')
    requires forall k :: from <= k < p ==> s[k] != '%' && s[k] != '|'
    ensures NameStop(s, from) == Some(p)
    decreases p - from
  {
    if from < p {
      NameStopFirst(s, from + 1, p);
    }
  }

  /** `%([^%|]+)(?:\|([^%]+))?%` anchored at `i`. */
  function VariableAt(s: string, i: nat): (r: Option<Token>)
    ensures r.Some? ==> r.value.start == i && WellFormed(s, r.value) && s[i] == '%'
  {
    if !(i < |s| && s[i] == '%') then None
    else
      match NameStop(s, i + 1)
      case None => None
      case Some(p) =>
        if p < i + 2 then None
        else if s[p] == '%' then Some(Token(i, p + 1, s[i..p + 1], s[i + 1..p], None))
        else
          match IndexOfChar(s, '%', p + 1)
          case None => None
          case Some(q) =>
            if q < p + 2 then None
            else Some(Token(i, q + 1, s[i..q + 1], s[i + 1..p], Some(s[p + 1..q])))
  }

  /** An attempt of the kind's pattern anchored at `i`. */
  function TokenAt(s: string, i: nat, kind: Kind): (r: Option<Token>)
    ensures r.Some? ==> r.value.start == i && WellFormed(s, r.value)
  {
    match kind
    case Variable => VariableAt(s, i)
    case Include =>
      (match HeadAt(s, i, Opening(kind))
       case None => None
       case Some(head) =>
         var (g, close) := head;
         Some(Token(i, close + 1, s[i..close + 1], s[g..close], None)))
    case _ =>
      match HeadAt(s, i, Opening(kind))
      case None => None
      case Some(head) =>
        var (g, close) := head;
        match IndexOf(s, ClosingTag(kind), close + 1)
        case None => None
        case Some(k) =>
          var e := k + |ClosingTag(kind)|;
          Some(Token(i, e, s[i..e], s[g..close], Some(s[close + 1..k])))
  }

  /** A block match from its head and its closing tag. */
  lemma BlockTokenAt(s: string, i: nat, kind: Kind, g: nat, close: nat, k: nat)
    requires kind == If || kind == IfNot
    requires HeadAt(s, i, Opening(kind)) == Some((g, close))
    requires IndexOf(s, ClosingTag(kind), close + 1) == Some(k)
    ensures var e := k + |ClosingTag(kind)|;
            TokenAt(s, i, kind) == Some(Token(i, e, s[i..e], s[g..close], Some(s[close + 1..k])))
  {
  }

  /** A match at 0 that spans the whole text is the only one. */
  lemma WholeTextToken(s: string, kind: Kind, t: Token)
    requires TokenAt(s, 0, kind) == Some(t) && t.end == |s|
    ensures Tokens(s, 0, kind) == [t]
  {
    assert Find(s, 0, kind) == Some(t);
    assert Find(s, |s|, kind) == None;
  }

  /** A match starts with its kind's opening literal. */
  lemma TokenAtOpening(s: string, i: nat, kind: Kind)
    requires TokenAt(s, i, kind).Some?
    ensures StartsWithAt(s, Opening(kind), i)
  {
    if kind != Variable {
      HeadAtSpec(s, i, Opening(kind));
    }
  }

  /** `Matcher.find()` from position `from`: the match at the smallest start. */
  function Find(s: string, from: nat, kind: Kind): (r: Option<Token>)
    ensures r.Some? ==> from <= r.value.start && WellFormed(s, r.value)
    decreases |s| - from
  {
    if from >= |s| then None
    else
      match TokenAt(s, from, kind)
      case Some(t) => Some(t)
      case None => Find(s, from + 1, kind)
  }

  /** What `Find` returns is the match anchored at its start. */
  lemma {:induction false} FindIsMatch(s: string, from: nat, kind: Kind)
    requires Find(s, from, kind).Some?
    ensures TokenAt(s, Find(s, from, kind).value.start, kind) == Find(s, from, kind)
    decreases |s| - from
  {
    if TokenAt(s, from, kind).None? {
      FindIsMatch(s, from + 1, kind);
    }
  }

  /** No attempt before the match `Find` returns succeeds. */
  lemma {:induction false} FindSkipsNothing(s: string, from: nat, kind: Kind, k: nat)
    requires Find(s, from, kind).Some? && from <= k < Find(s, from, kind).value.start
    ensures TokenAt(s, k, kind).None?
    decreases |s| - from
  {
    if from < k {
      FindSkipsNothing(s, from + 1, kind, k);
    }
  }

  /** When `Find` returns nothing, no attempt from `from` on succeeds. */
  lemma {:induction false} FindNoneNoMatch(s: string, from: nat, kind: Kind, k: nat)
    requires Find(s, from, kind).None? && from <= k
    ensures TokenAt(s, k, kind).None?
    decreases |s| - from
  {
    if from < |s| && from < k {
      FindNoneNoMatch(s, from + 1, kind, k);
    }
  }


  /** Every match `while (matcher.find())` visits from `from` on, in order;
      each search resumes where the previous match ended. */
  function Tokens(s: string, from: nat, kind: Kind): (ts: seq<Token>)
    decreases |s| - from
  {
    match Find(s, from, kind)
    case None => []
    case Some(t) => [t] + Tokens(s, t.end, kind)
  }

  /** The scanned matches lie in the text, in order, from `from` on. */
  lemma {:induction false} TokensWellFormed(s: string, from: nat, kind: Kind)
    ensures forall t :: t in Tokens(s, from, kind) ==> WellFormed(s, t) && from <= t.start
    decreases |s| - from
  {
    match Find(s, from, kind)
    case None =>
    case Some(t) =>
      TokensWellFormed(s, t.end, kind);
  }

  /** The matches from `from` on: the one `Find` returns, then those after it. */
  lemma TokensStep(s: string, from: nat, kind: Kind, t: Token)
    requires Find(s, from, kind) == Some(t)
    ensures Tokens(s, from, kind) == [t] + Tokens(s, t.end, kind)
  {
  }

  /** The match found at a position before which no attempt succeeds. */
  lemma {:induction false} FindFirst(s: string, from: nat, kind: Kind, t: Token)
    requires TokenAt(s, t.start, kind) == Some(t) && from <= t.start
    requires forall k :: from <= k < t.start ==> TokenAt(s, k, kind).None?
    ensures Find(s, from, kind) == Some(t)
    decreases t.start - from
  {
    if from < t.start {
      FindFirst(s, from + 1, kind, t);
    }
  }

  /** A match before which no attempt succeeds is the first one scanned. */
  lemma FirstMatchAt(s: string, kind: Kind, t: Token)
    requires TokenAt(s, t.start, kind) == Some(t)
    requires forall k :: 0 <= k < t.start ==> TokenAt(s, k, kind).None?
    ensures Tokens(s, 0, kind) == [t] + Tokens(s, t.end, kind)
  {
    FindFirst(s, 0, kind, t);
    TokensStep(s, 0, kind, t);
  }

  /** No match can start where the kind's opening literal does not stand. */
  lemma {:induction false} NoOpeningNoTokens(s: string, from: nat, kind: Kind)
    requires forall k :: from <= k < |s| ==> !StartsWithAt(s, Opening(kind), k)
    ensures Tokens(s, from, kind) == []
  {
    forall k | from <= k ensures TokenAt(s, k, kind).None? {
      if TokenAt(s, k, kind).Some? {
        TokenAtOpening(s, k, kind);
      }
    }
    if Find(s, from, kind).Some? {
      FindIsMatch(s, from, kind);
    }
    assert Find(s, from, kind).None?;
  }

  /** A string in which no character is `c` has no occurrence of a literal
      starting with `c`. */
  lemma NoCharNoOpening(s: string, c: char, kind: Kind)
    requires Opening(kind)[0] == c
    requires forall k :: 0 <= k < |s| ==> s[k] != c
    ensures forall k :: 0 <= k < |s| ==> !StartsWithAt(s, Opening(kind), k)
  {
    forall k | 0 <= k < |s| ensures !StartsWithAt(s, Opening(kind), k) {
      if k + |Opening(kind)| <= |s| {
        assert s[k..k + |Opening(kind)|][0] == s[k];
      }
    }
  }

  /** Text without `{` holds no include and no conditional block, and text
      without `%` holds no variable. */
  lemma {:induction false} PlainTextHasNoTokens(s: string, kind: Kind)
    requires forall k :: 0 <= k < |s| ==> s[k] != '{' && s[k] != '%'
    ensures Tokens(s, 0, kind) == []
  {
    NoCharNoOpening(s, Opening(kind)[0], kind);
    NoOpeningNoTokens(s, 0, kind);
  }
}
