/** How a Java `String` stores its text: a sequence of UTF-16 code units.
    `length()`, `substring` and `hashCode()` count and read these units, so a
    character above U+FFFF (an emoji, say) counts twice and a cut can fall
    between the two halves of its surrogate pair. */
module JavaUtf16 {

  import opened JavaString

  /** One UTF-16 code unit, a Java `char`. */
  type CodeUnit = x: int | 0 <= x < 0x1_0000

  predicate IsHighSurrogate(u: CodeUnit) { 0xD800 <= u < 0xDC00 }
  predicate IsLowSurrogate(u: CodeUnit) { 0xDC00 <= u < 0xE000 }

  /** The units of one character: itself below U+10000, otherwise a high
      surrogate followed by a low surrogate. */
  function CharUnits(c: char): (u: seq<CodeUnit>)
    ensures |u| == (if c as int < 0x1_0000 then 1 else 2)
    ensures |u| == 1 ==> u[0] == c as int && !IsHighSurrogate(u[0]) && !IsLowSurrogate(u[0])
    ensures |u| == 2 ==> IsHighSurrogate(u[0]) && IsLowSurrogate(u[1])
  {
    var v := c as int;
    if v < 0x1_0000 then [v]
    else [0xD800 + (v - 0x1_0000) / 0x400, 0xDC00 + (v - 0x1_0000) % 0x400]
  }

  /** The units Java stores for a string. */
  function Utf16(s: string): (u: seq<CodeUnit>)
    ensures |u| >= |s|
  {
    if s == [] then [] else CharUnits(s[0]) + Utf16(s[1..])
  }

  /** The character a surrogate pair stands for. */
  function PairCode(hi: CodeUnit, lo: CodeUnit): (c: int)
    requires IsHighSurrogate(hi) && IsLowSurrogate(lo)
    ensures 0x1_0000 <= c < 0x11_0000
  {
    0x1_0000 + (hi as int - 0xD800) * 0x400 + (lo as int - 0xDC00)
  }

  /** Reading units back as characters; a surrogate without its partner is
      malformed. */
  function FromUtf16(u: seq<CodeUnit>): (r: Option<string>)
    ensures r.Some? ==> |r.value| <= |u|
    decreases |u|
  {
    if u == [] then Some([])
    else if !IsHighSurrogate(u[0]) && !IsLowSurrogate(u[0]) then
      match FromUtf16(u[1..])
      case None => None
      case Some(rest) => Some([u[0] as char] + rest)
    else if IsHighSurrogate(u[0]) && |u| >= 2 && IsLowSurrogate(u[1]) then
      match FromUtf16(u[2..])
      case None => None
      case Some(rest) => Some([PairCode(u[0], u[1]) as char] + rest)
    else None
  }

  /** Encoding then decoding gives the string back: no two strings share
      their units. */
  lemma {:induction false} Utf16RoundTrip(s: string)
    ensures FromUtf16(Utf16(s)) == Some(s)
  {
    if s != [] {
      var c, u, rest := s[0], CharUnits(s[0]), Utf16(s[1..]);
      Utf16RoundTrip(s[1..]);
      assert Utf16(s) == u + rest;
      if |u| == 1 {
        assert (u + rest)[1..] == rest;
        assert u[0] as char == c;
      } else {
        assert (u + rest)[2..] == rest;
        var v := c as int - 0x1_0000;
        assert u[0] as int - 0xD800 == v / 0x400 && u[1] as int - 0xDC00 == v % 0x400;
        assert PairCode(u[0], u[1]) == c as int;
      }
      assert [c] + s[1..] == s;
    }
  }

  /** Encoding distributes over concatenation. */
  lemma {:induction false} Utf16Append(a: string, b: string)
    ensures Utf16(a + b) == Utf16(a) + Utf16(b)
  {
    if a != [] {
      assert (a + b)[1..] == a[1..] + b;
      Utf16Append(a[1..], b);
    } else {
      assert a + b == b;
    }
  }

  /** Every character lies in the Basic Multilingual Plane. */
  predicate InBmp(s: string) {
    forall i :: 0 <= i < |s| ==> s[i] as int < 0x1_0000
  }

  /** In the Basic Multilingual Plane a string has one unit per character. */
  lemma {:induction false} BmpLength(s: string)
    requires InBmp(s)
    ensures |Utf16(s)| == |s|
  {
    if s != [] {
      BmpSuffix(s);
      BmpLength(s[1..]);
    }
  }

  lemma BmpSuffix(s: string)
    requires InBmp(s) && s != []
    ensures InBmp(s[1..])
  {
    forall i | 0 <= i < |s| - 1 ensures s[1..][i] as int < 0x1_0000 {
      assert s[1..][i] == s[i + 1];
    }
  }

  /** In the Basic Multilingual Plane a string has one unit per character,
      and each unit is that character's code. */
  lemma {:induction false} BmpUnits(s: string)
    requires InBmp(s)
    ensures |Utf16(s)| == |s|
    ensures forall i :: 0 <= i < |s| ==> Utf16(s)[i] == s[i] as int
  {
    if s != [] {
      BmpSuffix(s);
      BmpUnits(s[1..]);
      forall i | 0 <= i < |s| ensures Utf16(s)[i] == s[i] as int {
        if i > 0 {
          assert Utf16(s)[i] == Utf16(s[1..])[i - 1];
        }
      }
    }
  }

  /** Any character above U+FFFF makes the string longer in units than in
      characters. */
  lemma {:induction false} SupplementaryCountsTwice(s: string, k: nat)
    requires k < |s| && s[k] as int >= 0x1_0000
    ensures |Utf16(s)| > |s|
  {
    if k > 0 {
      SupplementaryCountsTwice(s[1..], k - 1);
    }
  }

  /** The first `n` units of `u`, or all of them when there are fewer:
      `s.length() > n ? s.substring(0, n) : s`. */
  function Cap(u: seq<CodeUnit>, n: nat): (r: seq<CodeUnit>)
    ensures |r| <= n && r <= u
    ensures |u| <= n ==> r == u
    ensures |u| > n ==> |r| == n
  {
    if |u| > n then u[..n] else u
  }

  /** A prefix of a string in the Basic Multilingual Plane is one too. */
  lemma BmpPrefix(s: string, n: nat)
    requires InBmp(s) && n <= |s|
    ensures InBmp(s[..n])
  {
    assert forall i :: 0 <= i < n ==> s[..n][i] == s[i];
  }

  /** In the Basic Multilingual Plane, cutting the units is cutting the
      characters: the cut text reads back as the first `n` characters. */
  lemma CapOfBmp(s: string, n: nat)
    requires InBmp(s)
    ensures FromUtf16(Cap(Utf16(s), n)) == Some(if |s| > n then s[..n] else s)
  {
    BmpLength(s);
    if |s| > n {
      BmpCut(s, n);
      Utf16RoundTrip(s[..n]);
    } else {
      Utf16RoundTrip(s);
    }
  }

  /** In the Basic Multilingual Plane the first `n` units are the units of
      the first `n` characters. */
  lemma BmpCut(s: string, n: nat)
    requires InBmp(s) && n <= |s|
    ensures Utf16(s)[..n] == Utf16(s[..n])
  {
    var a, b := s[..n], s[n..];
    assert a + b == s;
    BmpPrefix(s, n);
    BmpLength(a);
    Utf16Append(a, b);
    JoinPrefix(Utf16(a), Utf16(b));
  }

  lemma JoinPrefix(x: seq<CodeUnit>, y: seq<CodeUnit>)
    ensures (x + y)[..|x|] == x
  {
  }

  /** U+1F3C6 (a trophy) is two units, and a cut after the first leaves a
      lone high surrogate that reads back as no text at all. */
  lemma TrophyCutInHalf()
    ensures Utf16("\U{1F3C6}") == [0xD83C, 0xDFC6]
    ensures FromUtf16(Cap(Utf16("\U{1F3C6}"), 1)).None?
  {
    assert Utf16("\U{1F3C6}") == CharUnits('\U{1F3C6}') + Utf16([]);
  }
}
