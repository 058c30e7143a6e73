/** The few java.lang.String operations the core relies on, modelled on
    `seq<char>`. Case mapping is ASCII-only (see README, "Left out"). */
module JavaString {

  /** A Java reference that may be null. */
  datatype Option<T> = None | Some(value: T)

  /** Characters that `String.trim` removes: every code point up to U+0020. */
  predicate IsTrimmable(c: char) { c <= ' ' }

  /** The regex class `\s` without UNICODE_CHARACTER_CLASS: [ \t\n\x0B\f\r]. */
  predicate IsRegexSpace(c: char) { c == ' ' || '\t' <= c <= '\r' }

  function TrimStart(s: string): (r: string)
    ensures |r| <= |s|
  {
    if s != [] && IsTrimmable(s[0]) then TrimStart(s[1..]) else s
  }

  function TrimEnd(s: string): (r: string)
    ensures |r| <= |s|
  {
    if s != [] && IsTrimmable(s[|s| - 1]) then TrimEnd(s[..|s| - 1]) else s
  }

  /** `String.trim()`. */
  function Trim(s: string): (r: string)
    ensures |r| <= |s|
  {
    TrimEnd(TrimStart(s))
  }

  /** `TrimStart` drops exactly the leading run of trimmable characters. */
  lemma {:induction false} TrimStartSpec(s: string)
    ensures TrimStart(s) == s[|s| - |TrimStart(s)|..]
    ensures forall i :: 0 <= i < |s| - |TrimStart(s)| ==> IsTrimmable(s[i])
    ensures TrimStart(s) != [] ==> !IsTrimmable(TrimStart(s)[0])
    decreases |s|
  {
    if s != [] && IsTrimmable(s[0]) {
      TrimStartSpec(s[1..]);
      assert s[1..][|s[1..]| - |TrimStart(s)|..] == s[|s| - |TrimStart(s)|..];
      forall i | 1 <= i < |s| - |TrimStart(s)| ensures IsTrimmable(s[i]) {
        assert s[i] == s[1..][i - 1];
      }
    }
  }

  /** `TrimEnd` drops exactly the trailing run of trimmable characters. */
  lemma {:induction false} TrimEndSpec(s: string)
    ensures TrimEnd(s) == s[..|TrimEnd(s)|]
    ensures forall i :: |TrimEnd(s)| <= i < |s| ==> IsTrimmable(s[i])
    ensures TrimEnd(s) != [] ==> !IsTrimmable(TrimEnd(s)[|TrimEnd(s)| - 1])
    decreases |s|
  {
    if s != [] && IsTrimmable(s[|s| - 1]) {
      TrimEndSpec(s[..|s| - 1]);
      assert s[..|s| - 1][..|TrimEnd(s)|] == s[..|TrimEnd(s)|];
      forall i | |TrimEnd(s)| <= i < |s| - 1 ensures IsTrimmable(s[i]) {
        assert s[i] == s[..|s| - 1][i];
      }
    }
  }

  /** `trim()` keeps the infix `s[a..b]` between the leading and the trailing
      runs of trimmable characters; what it keeps starts and ends with a
      character it would not trim. */
  lemma TrimSpec(s: string)
    ensures var a := |s| - |TrimStart(s)|;
            a + |Trim(s)| <= |s| && Trim(s) == s[a..a + |Trim(s)|]
            && (forall i :: 0 <= i < a ==> IsTrimmable(s[i]))
            && (forall i :: a + |Trim(s)| <= i < |s| ==> IsTrimmable(s[i]))
    ensures Trim(s) != [] ==> !IsTrimmable(Trim(s)[0]) && !IsTrimmable(Trim(s)[|Trim(s)| - 1])
  {
    var t := TrimStart(s);
    TrimStartSpec(s);
    TrimEndSpec(t);
    assert Trim(s) == TrimEnd(t);
    InfixOfSuffix(s, t, TrimEnd(t));
  }

  /** A prefix `r` of a suffix `t` of `s` is an infix of `s`. */
  lemma InfixOfSuffix(s: string, t: string, r: string)
    requires |t| <= |s| && t == s[|s| - |t|..]
    requires |r| <= |t| && r == t[..|r|]
    requires forall i :: |r| <= i < |t| ==> IsTrimmable(t[i])
    ensures var a := |s| - |t|;
            r == s[a..a + |r|] && forall i :: a + |r| <= i < |s| ==> IsTrimmable(s[i])
    ensures r != [] ==> r[0] == t[0]
  {
    var a := |s| - |t|;
    assert t[..|r|] == s[a..a + |r|];
    forall i | a + |r| <= i < |s| ensures IsTrimmable(s[i]) {
      assert s[i] == t[i - a];
    }
  }

  /** A string that starts and ends with a non-trimmable character is its own trim. */
  lemma TrimOfTrimmed(s: string)
    requires s != [] ==> !IsTrimmable(s[0]) && !IsTrimmable(s[|s| - 1])
    ensures Trim(s) == s
  {
  }

  function LowerChar(c: char): (r: char)
    ensures 'A' <= c <= 'Z' ==> 'a' <= r <= 'z' && r as int - c as int == 32
    ensures !('A' <= c <= 'Z') ==> r == c
  {
    if 'A' <= c <= 'Z' then (c as int + 32) as char else c
  }

  function UpperChar(c: char): (r: char)
    ensures 'a' <= c <= 'z' ==> 'A' <= r <= 'Z' && c as int - r as int == 32
    ensures !('a' <= c <= 'z') ==> r == c
  {
    if 'a' <= c <= 'z' then (c as int - 32) as char else c
  }

  /** `String.toLowerCase()` restricted to ASCII letters. */
  function ToLower(s: string): (r: string)
    ensures |r| == |s|
  {
    seq(|s|, i requires 0 <= i < |s| => LowerChar(s[i]))
  }

  /** Lower-casing is idempotent, so a lower-cased key is its own key. */
  lemma ToLowerIdempotent(s: string)
    ensures ToLower(ToLower(s)) == ToLower(s)
  {
  }

  /** `String.equalsIgnoreCase` restricted to ASCII letters. */
  predicate EqualsIgnoreCase(a: string, b: string) {
    ToLower(a) == ToLower(b)
  }

  /** `s.startsWith(t, from)`. */
  predicate StartsWithAt(s: string, t: string, from: nat) {
    from + |t| <= |s| && s[from..from + |t|] == t
  }

  /** `t` stands at `from` in `s`, checked from its `k`-th character on, one
      character at a time as `String.regionMatches` compares. */
  predicate MatchesFrom(s: string, t: string, from: nat, k: nat)
    requires k <= |t|
    decreases |t| - k
  {
    if k == |t| then from + k <= |s|
    else from + k < |s| && s[from + k] == t[k] && MatchesFrom(s, t, from, k + 1)
  }

  lemma {:induction false} MatchesFromSpec(s: string, t: string, from: nat, k: nat)
    requires k <= |t|
    ensures MatchesFrom(s, t, from, k) <==> from + |t| <= |s| && forall j :: k <= j < |t| ==> s[from + j] == t[j]
    decreases |t| - k
  {
    if k < |t| {
      MatchesFromSpec(s, t, from, k + 1);
    }
  }

  /** The character-wise comparison decides `startsWith`. */
  lemma MatchesStartsWith(s: string, t: string, from: nat)
    ensures MatchesFrom(s, t, from, 0) <==> StartsWithAt(s, t, from)
  {
    MatchesFromSpec(s, t, from, 0);
    if from + |t| <= |s| {
      var w := s[from..from + |t|];
      forall j | 0 <= j < |t| ensures w[j] == s[from + j] {
      }
    }
  }

  /** `s.indexOf(t, from)` for a non-empty `t`. */
  function IndexOf(s: string, t: string, from: nat): (r: Option<nat>)
    requires |t| > 0
    ensures r.Some? ==> from <= r.value && r.value + |t| <= |s|
    decreases |s| - from
  {
    if from + |t| > |s| then None
    else if MatchesFrom(s, t, from, 0) then Some(from)
    else IndexOf(s, t, from + 1)
  }

  /** `indexOf` finds the first occurrence at or after `from`, and finds
      nothing only when there is none. */
  lemma {:induction false} IndexOfSpec(s: string, t: string, from: nat)
    requires |t| > 0
    ensures IndexOf(s, t, from).Some? ==> StartsWithAt(s, t, IndexOf(s, t, from).value)
    ensures IndexOf(s, t, from).Some? ==>
              forall k :: from <= k < IndexOf(s, t, from).value ==> !StartsWithAt(s, t, k)
    ensures IndexOf(s, t, from).None? ==> forall k :: from <= k ==> !StartsWithAt(s, t, k)
    decreases |s| - from
  {
    MatchesStartsWith(s, t, from);
    if from + |t| <= |s| && !StartsWithAt(s, t, from) {
      IndexOfSpec(s, t, from + 1);
    }
  }

  /** The first occurrence of `t` at or after `from` is what `IndexOf` finds. */
  lemma {:induction false} IndexOfFirst(s: string, t: string, from: nat, k: nat)
    requires |t| > 0 && from <= k && StartsWithAt(s, t, k)
    requires forall j :: from <= j < k ==> !StartsWithAt(s, t, j)
    ensures IndexOf(s, t, from) == Some(k)
    decreases k - from
  {
    MatchesStartsWith(s, t, from);
    if from < k {
      IndexOfFirst(s, t, from + 1, k);
    }
  }

  /** `s.contains(t)` for a non-empty `t`. */
  predicate Contains(s: string, t: string)
    requires |t| > 0
  {
    IndexOf(s, t, 0).Some?
  }

  /** `s.indexOf(c, from)`. */
  function IndexOfChar(s: string, c: char, from: nat): (r: Option<nat>)
    ensures r.Some? ==> from <= r.value < |s| && s[r.value] == c
    decreases |s| - from
  {
    if from >= |s| then None
    else if s[from] == c then Some(from)
    else IndexOfChar(s, c, from + 1)
  }

  /** No `c` stands between `from` and what `IndexOfChar` finds, nor anywhere
      from `from` on when it finds nothing. */
  lemma {:induction false} IndexOfCharSpec(s: string, c: char, from: nat)
    ensures IndexOfChar(s, c, from).Some? ==> forall k :: from <= k < IndexOfChar(s, c, from).value ==> s[k] != c
    ensures IndexOfChar(s, c, from).None? ==> forall k :: from <= k < |s| ==> s[k] != c
    decreases |s| - from
  {
    if from < |s| && s[from] != c {
      IndexOfCharSpec(s, c, from + 1);
    }
  }

  /** The first position at or after `from` holding `c` is what `IndexOfChar` finds. */
  lemma {:induction false} IndexOfCharFirst(s: string, c: char, from: nat, k: nat)
    requires from <= k < |s| && s[k] == c
    requires forall j :: from <= j < k ==> s[j] != c
    ensures IndexOfChar(s, c, from) == Some(k)
    decreases k - from
  {
    if from < k {
      IndexOfCharFirst(s, c, from + 1, k);
    }
  }

  /** `s.replace(target, replacement)` (the CharSequence overload) for a
      non-empty target: every non-overlapping occurrence, scanned left to right,
      is replaced by the literal replacement. */
  function Replace(s: string, target: string, replacement: string): (r: string)
    requires |target| > 0
    ensures IndexOf(s, target, 0).None? ==> r == s
    decreases |s|
  {
    match IndexOf(s, target, 0)
    case None => s
    case Some(i) => s[..i] + replacement + Replace(s[i + |target|..], target, replacement)
  }

  /** Replacing a whole string that occurs exactly once yields the replacement. */
  lemma {:induction false} ReplaceWhole(s: string, replacement: string)
    requires |s| > 0
    ensures Replace(s, s, replacement) == replacement
  {
    assert s[0..|s|] == s;
    MatchesStartsWith(s, s, 0);
    assert IndexOf(s, s, 0) == Some(0);
    assert s[|s|..] == [];
    assert IndexOf([], s, 0).None?;
  }
}
