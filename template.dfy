/** Template.java: an immutable name/content record whose identity, for
    `equals` and `hashCode`, is its name alone. */
module TemplateRecord {

  import JavaString
  import opened JavaUtf16

  datatype Template = Template(name: string, content: string)

  /** What `Template.equals(Object)` can be handed: null, an object of some
      other class, or a template. */
  datatype JavaObject = Null | OtherClass | TemplateObject(template: Template)

  /** `new Template(name, content)`: the getters give back exactly the arguments. */
  function NewTemplate(name: string, content: string): (t: Template)
    ensures t.name == name && t.content == content
  {
    Template(name, content)
  }

  /** `Template.equals`: true iff the other object is a template with the same
      name; the content is ignored. */
  function Equals(t: Template, o: JavaObject): (r: bool)
    ensures r <==> o.TemplateObject? && o.template.name == t.name
  {
    match o
    case Null => false
    case OtherClass => false
    case TemplateObject(other) => t.name == other.name
  }

  lemma EqualsReflexive(t: Template)
    ensures Equals(t, TemplateObject(t))
  {
  }

  lemma EqualsSymmetric(a: Template, b: Template)
    ensures Equals(a, TemplateObject(b)) == Equals(b, TemplateObject(a))
  {
  }

  /** Two templates with the same name are equal whatever their contents. */
  lemma EqualsIgnoresContent(name: string, c1: string, c2: string)
    ensures Equals(Template(name, c1), TemplateObject(Template(name, c2)))
  {
  }

  const TwoTo32: int := 0x1_0000_0000
  const TwoTo31: int := 0x8000_0000

  /** Java's `int` reading of a 32-bit pattern. */
  function ToInt32(u: int): (r: int)
    requires 0 <= u < TwoTo32
    ensures -TwoTo31 <= r < TwoTo31
    ensures (r - u) % TwoTo32 == 0
  {
    if u < TwoTo31 then u else u - TwoTo32
  }

  /** The unsigned 32-bit state of `String.hashCode` after the first `n`
      UTF-16 units: h := 31 * h + unit, wrapping at 2^32. */
  function HashState(u: seq<CodeUnit>, n: nat): (h: int)
    requires n <= |u|
    ensures 0 <= h < TwoTo32
  {
    if n == 0 then 0 else (31 * HashState(u, n - 1) + u[n - 1]) % TwoTo32
  }

  function Pow31(k: nat): (p: nat)
    ensures p >= 1
  {
    if k == 0 then 1 else 31 * Pow31(k - 1)
  }

  /** The value `String.hashCode` documents, in unbounded integers:
      u[0]*31^(n-1) + u[1]*31^(n-2) + ... + u[n-1]. */
  function HashSum(u: seq<CodeUnit>): (v: int)
    ensures v >= 0
  {
    if u == [] then 0 else u[0] * Pow31(|u| - 1) + HashSum(u[1..])
  }

  /** Appending a unit multiplies the sum by 31 and adds the unit. */
  lemma {:induction false} HashSumAppend(u: seq<CodeUnit>, c: CodeUnit)
    ensures HashSum(u + [c]) == 31 * HashSum(u) + c
  {
    if u == [] {
      assert u + [c] == [c];
    } else {
      assert (u + [c])[1..] == u[1..] + [c];
      HashSumAppend(u[1..], c);
      assert u[0] * Pow31(|u|) == 31 * (u[0] * Pow31(|u| - 1));
    }
  }

  /** Wrapping before or after a step of the hash gives the same state. */
  lemma WrapStep(x: int, c: int)
    ensures (31 * (x % TwoTo32) + c) % TwoTo32 == (31 * x + c) % TwoTo32
  {
    var q, r := x / TwoTo32, x % TwoTo32;
    assert x == q * TwoTo32 + r;
    assert 31 * x + c == (31 * q) * TwoTo32 + (31 * r + c);
  }

  /** The wrapping state is the documented sum reduced modulo 2^32. */
  lemma {:induction false} HashStateIsSum(u: seq<CodeUnit>, n: nat)
    requires n <= |u|
    ensures HashState(u, n) == HashSum(u[..n]) % TwoTo32
  {
    if n > 0 {
      HashStateIsSum(u, n - 1);
      assert u[..n] == u[..n - 1] + [u[n - 1]];
      HashSumAppend(u[..n - 1], u[n - 1]);
      WrapStep(HashSum(u[..n - 1]), u[n - 1]);
    }
  }

  /** `String.hashCode()`: the documented sum over the string's UTF-16
      units, read as a 32-bit `int`. */
  function StringHash(s: string): (h: int)
    ensures -TwoTo31 <= h < TwoTo31
    ensures (h - HashSum(Utf16(s))) % TwoTo32 == 0
  {
    var u := Utf16(s);
    HashStateIsSum(u, |u|);
    assert u[..|u|] == u;
    ToInt32(HashState(u, |u|))
  }

  /** `Template.hashCode`: the 32-bit `int` congruent to the documented sum
      over the name's UTF-16 units; the content plays no part. */
  function HashCode(t: Template): (h: int)
    ensures -TwoTo31 <= h < TwoTo31
    ensures (h - HashSum(Utf16(t.name))) % TwoTo32 == 0
  {
    StringHash(t.name)
  }

  /** A character above U+FFFF is hashed as its two surrogate units. */
  lemma TrophyHash()
    ensures StringHash("\U{1F3C6}") == 31 * 0xD83C + 0xDFC6
  {
    TrophyCutInHalf();
    assert HashState([0xD83C, 0xDFC6], 1) == 0xD83C;
  }

  /** Two templates with the same name hash alike whatever their contents. */
  lemma HashIgnoresContent(name: string, c1: string, c2: string)
    ensures HashCode(Template(name, c1)) == HashCode(Template(name, c2))
  {
  }

  /** The equals/hashCode contract: equal templates have equal hash codes. */
  lemma EqualTemplatesHashEqually(a: Template, b: Template)
    requires Equals(a, TemplateObject(b))
    ensures HashCode(a) == HashCode(b)
  {
  }

  const ToStringPrefix: string := "Template{name='"
  const ToStringMiddle: string := "', content='"
  const ToStringSuffix: string := "'}"

  /** `Template.toString`: `Template{name='<name>', content='<content>'}`. */
  function ToString(t: Template): (s: string)
    ensures |s| == |t.name| + |t.content| + 29
    ensures s[..15] == ToStringPrefix
    ensures s[15..15 + |t.name|] == t.name
    ensures s[15 + |t.name|..27 + |t.name|] == ToStringMiddle
    ensures s[27 + |t.name|..|s| - 2] == t.content
    ensures s[|s| - 2..] == ToStringSuffix
  {
    ToStringPrefix + t.name + ToStringMiddle + t.content + ToStringSuffix
  }

  /** In a printed template whose name has no single quote, the first quote
      after the prefix closes the name. */
  lemma NameEndsAtFirstQuote(t: Template)
    requires forall i :: 0 <= i < |t.name| ==> t.name[i] != '\''
    ensures JavaString.IndexOfChar(ToString(t), '\'', 15) == JavaString.Some(15 + |t.name|)
  {
    var s := ToString(t);
    assert s[15 + |t.name|] == ToStringMiddle[0];
    forall k | 15 <= k < 15 + |t.name| ensures s[k] != '\'' {
      assert s[k] == s[15..15 + |t.name|][k - 15];
    }
    JavaString.IndexOfCharFirst(s, '\'', 15, 15 + |t.name|);
  }

  /** When no name contains a single quote, `toString` loses nothing: two
      templates print the same only if they are the same record. */
  lemma {:induction false} ToStringInjective(a: Template, b: Template)
    requires forall i :: 0 <= i < |a.name| ==> a.name[i] != '\''
    requires forall i :: 0 <= i < |b.name| ==> b.name[i] != '\''
    requires ToString(a) == ToString(b)
    ensures a == b
  {
    var s := ToString(a);
    NameEndsAtFirstQuote(a);
    NameEndsAtFirstQuote(b);
    assert |a.name| == |b.name|;
    assert a.name == s[15..15 + |a.name|] == b.name;
    assert a.content == s[27 + |a.name|..|s| - 2] == b.content;
  }
}
