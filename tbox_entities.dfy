/** The vocabulary of a TBox (object and data properties, class expressions
    and data ranges) and the name orders used to pick the representative of
    a set of equivalent expressions. */
module TBoxEntities {

  /** A UTF-16 code unit, the element of a Java string. */
  newtype CodeUnit = x: int | 0 <= x < 0x1_0000

  /** The UTF-16 encoding of one character: itself below U+10000, otherwise
      a high surrogate followed by a low surrogate. */
  function CharUnits(c: char): (u: seq<CodeUnit>)
    ensures |u| == 1 <==> c as int < 0x1_0000
    ensures |u| == 1 || |u| == 2
    ensures |u| == 1 ==> !(0xD800 <= u[0] as int < 0xDC00)
    ensures |u| == 2 ==> 0xD800 <= u[0] as int < 0xDC00
  {
    var v := c as int;
    if v < 0x1_0000 then [v as CodeUnit]
    else [(0xD800 + (v - 0x1_0000) / 0x400) as CodeUnit, (0xDC00 + (v - 0x1_0000) % 0x400) as CodeUnit]
  }

  /** The UTF-16 encoding of a string: the code units Java stores. */
  function Utf16(s: string): (u: seq<CodeUnit>)
    ensures |s| <= |u| <= 2 * |s|
  {
    if s == [] then [] else CharUnits(s[0]) + Utf16(s[1..])
  }

  /** `String.compareTo` on the code units: the difference of the first units
      that differ, or else the difference of the lengths. */
  function CompareUnits(a: seq<CodeUnit>, b: seq<CodeUnit>): int {
    if a == [] || b == [] then |a| - |b|
    else if a[0] != b[0] then a[0] as int - b[0] as int
    else CompareUnits(a[1..], b[1..])
  }

  /** Java's `String.compareTo`, which compares UTF-16 code units (so a
      character above U+FFFF sorts by its high surrogate). */
  function CompareNames(a: string, b: string): (r: int)
    ensures r == 0 <==> a == b
  {
    CompareUnitsZero(Utf16(a), Utf16(b));
    Utf16Injective(a, b);
    CompareUnits(Utf16(a), Utf16(b))
  }

  lemma {:induction false} CompareUnitsZero(a: seq<CodeUnit>, b: seq<CodeUnit>)
    ensures CompareUnits(a, b) == 0 <==> a == b
  {
    if a != [] && b != [] && a[0] == b[0] {
      CompareUnitsZero(a[1..], b[1..]);
      assert a == [a[0]] + a[1..] && b == [b[0]] + b[1..];
    }
  }

  /** Two characters with the same encoding are the same character. */
  lemma CharUnitsInjective(c: char, d: char)
    requires CharUnits(c) == CharUnits(d)
    ensures c == d
  {
    var v, w := c as int, d as int;
    if v >= 0x1_0000 {
      var qv, rv := (v - 0x1_0000) / 0x400, (v - 0x1_0000) % 0x400;
      var qw, rw := (w - 0x1_0000) / 0x400, (w - 0x1_0000) % 0x400;
      assert v == 0x1_0000 + qv * 0x400 + rv;
      assert w == 0x1_0000 + qw * 0x400 + rw;
      assert qv == qw && rv == rw;
    }
  }

  /** The encoding is prefix-free: the first unit tells how many units the
      first character takes, so equal encodings split alike. */
  lemma {:induction false} Utf16Injective(a: string, b: string)
    ensures Utf16(a) == Utf16(b) ==> a == b
  {
    if Utf16(a) == Utf16(b) && a != [] && b != [] {
      var ua, ub := CharUnits(a[0]), CharUnits(b[0]);
      assert Utf16(a) == ua + Utf16(a[1..]) && Utf16(b) == ub + Utf16(b[1..]);
      assert Utf16(a)[0] == ua[0] && Utf16(b)[0] == ub[0];
      assert |ua| == |ub|;
      assert ua == Utf16(a)[..|ua|] && ub == Utf16(b)[..|ub|];
      assert Utf16(a[1..]) == Utf16(a)[|ua|..] && Utf16(b[1..]) == Utf16(b)[|ub|..];
      CharUnitsInjective(a[0], b[0]);
      Utf16Injective(a[1..], b[1..]);
      assert a == [a[0]] + a[1..] && b == [b[0]] + b[1..];
    }
  }

  lemma {:induction false} CompareUnitsAntisymmetric(a: seq<CodeUnit>, b: seq<CodeUnit>)
    ensures CompareUnits(b, a) == -CompareUnits(a, b)
  {
    if a != [] && b != [] && a[0] == b[0] {
      CompareUnitsAntisymmetric(a[1..], b[1..]);
    }
  }

  lemma CompareNamesAntisymmetric(a: string, b: string)
    ensures CompareNames(b, a) == -CompareNames(a, b)
  {
    CompareUnitsAntisymmetric(Utf16(a), Utf16(b));
  }

  lemma {:induction false} CompareUnitsTransitive(a: seq<CodeUnit>, b: seq<CodeUnit>, c: seq<CodeUnit>)
    requires CompareUnits(a, b) < 0 && CompareUnits(b, c) < 0
    ensures CompareUnits(a, c) < 0
  {
    if a != [] && b != [] && c != [] && a[0] == b[0] && b[0] == c[0] {
      CompareUnitsTransitive(a[1..], b[1..], c[1..]);
    }
  }

  lemma CompareNamesTransitive(a: string, b: string, c: string)
    requires CompareNames(a, b) < 0 && CompareNames(b, c) < 0
    ensures CompareNames(a, c) < 0
  {
    CompareUnitsTransitive(Utf16(a), Utf16(b), Utf16(c));
  }

  /** U+FFFF sorts after U+10000, whose first code unit is the surrogate
      0xD800, although its code point is smaller. */
  lemma SupplementarySortsBySurrogate()
    ensures CompareNames("\U{FFFF}", "\U{10000}") > 0
  {
    assert Utf16("\U{FFFF}") == [0xFFFF];
    assert Utf16("\U{10000}") == [0xD800, 0xDC00];
  }

  /** A named object property or the inverse of one. */
  datatype ObjectProperty = ObjectProperty(name: string, isInverse: bool)

  function Inverse(p: ObjectProperty): (r: ObjectProperty)
    ensures r.name == p.name && r.isInverse == !p.isInverse
  {
    ObjectProperty(p.name, !p.isInverse)
  }

  /** Taking the inverse twice gives the property back, and no property is
      its own inverse. */
  lemma InverseInvolutive(p: ObjectProperty)
    ensures Inverse(Inverse(p)) == p && Inverse(p) != p
  {
  }

  datatype DataProperty = DataProperty(name: string)

  /** The datatype `rdfs:Literal`, the filler of a property domain. */
  const RdfsLiteral: string := "http://www.w3.org/2000/01/rdf-schema#Literal"

  datatype ClassExpression =
    | OClass(name: string)
    | ObjectSomeValuesFrom(property: ObjectProperty)
    | DataSomeValuesFrom(dataProperty: DataProperty, filler: string)

  datatype DataRange =
    | Datatype(name: string)
    | DataPropertyRange(dataProperty: DataProperty)

  /** Orders object properties by name; of two with the same name the
      property comes before its inverse. */
  function ObjectPropertyCompare(o1: ObjectProperty, o2: ObjectProperty): (r: int)
    ensures o1.name != o2.name ==> r == CompareNames(o1.name, o2.name) && r != 0
    ensures o1.name == o2.name ==> (r == 0 <==> o1.isInverse == o2.isInverse)
    ensures o1.name == o2.name ==> (r < 0 <==> !o1.isInverse && o2.isInverse)
    ensures r == 0 <==> o1 == o2
  {
    var compared := CompareNames(o1.name, o2.name);
    if compared == 0 then
      if o1.isInverse == o2.isInverse then 0
      else if o2.isInverse then -1
      else 1
    else compared
  }

  /** Orders data properties by name. */
  function DataPropertyCompare(o1: DataProperty, o2: DataProperty): (r: int)
    ensures r == 0 <==> o1 == o2
  {
    CompareNames(o1.name, o2.name)
  }

  /** `cmp` is a strict total order: antisymmetric, zero only on equal
      arguments, transitive. */
  ghost predicate StrictTotalOrder<T(!new)>(cmp: (T, T) -> int) {
    && (forall a, b :: cmp(b, a) == -cmp(a, b))
    && (forall a, b :: cmp(a, b) == 0 ==> a == b)
    && (forall a, b, c :: cmp(a, b) < 0 && cmp(b, c) < 0 ==> cmp(a, c) < 0)
  }

  lemma ObjectPropertyOrder()
    ensures StrictTotalOrder(ObjectPropertyCompare)
  {
    forall a, b ensures ObjectPropertyCompare(b, a) == -ObjectPropertyCompare(a, b) {
      CompareNamesAntisymmetric(a.name, b.name);
    }
    forall a, b, c | ObjectPropertyCompare(a, b) < 0 && ObjectPropertyCompare(b, c) < 0
      ensures ObjectPropertyCompare(a, c) < 0
    {
      if a.name != b.name && b.name != c.name {
        CompareNamesTransitive(a.name, b.name, c.name);
        CompareNamesAntisymmetric(a.name, c.name);
      }
    }
  }

  lemma DataPropertyOrder()
    ensures StrictTotalOrder(DataPropertyCompare)
  {
    forall a, b ensures DataPropertyCompare(b, a) == -DataPropertyCompare(a, b) {
      CompareNamesAntisymmetric(a.name, b.name);
    }
    forall a, b, c | DataPropertyCompare(a, b) < 0 && DataPropertyCompare(b, c) < 0
      ensures DataPropertyCompare(a, c) < 0
    {
      CompareNamesTransitive(a.name, b.name, c.name);
    }
  }

  /** `Collections.min`: a scan in iteration order that replaces the
      candidate by every element strictly before it. */
  function MinFrom<T>(s: seq<T>, cmp: (T, T) -> int, candidate: T): T {
    if s == [] then candidate
    else MinFrom(s[1..], cmp, if cmp(s[0], candidate) < 0 then s[0] else candidate)
  }

  function Min<T>(s: seq<T>, cmp: (T, T) -> int): T
    requires |s| > 0
  {
    MinFrom(s[1..], cmp, s[0])
  }

  lemma {:induction false} MinFromLeast<T(!new)>(s: seq<T>, cmp: (T, T) -> int, candidate: T)
    requires StrictTotalOrder(cmp)
    ensures var m := MinFrom(s, cmp, candidate);
            && (m in s || m == candidate)
            && cmp(m, candidate) <= 0
            && forall x :: x in s ==> cmp(m, x) <= 0
  {
    if s != [] {
      var next := if cmp(s[0], candidate) < 0 then s[0] else candidate;
      MinFromLeast(s[1..], cmp, next);
      assert s == [s[0]] + s[1..];
    }
  }

  /** The minimum is a member that no member precedes. */
  lemma MinLeast<T(!new)>(s: seq<T>, cmp: (T, T) -> int)
    requires |s| > 0 && StrictTotalOrder(cmp)
    ensures Min(s, cmp) in s
    ensures forall x :: x in s ==> cmp(Min(s, cmp), x) <= 0
  {
    MinFromLeast(s[1..], cmp, s[0]);
    assert s == [s[0]] + s[1..];
  }

  /** A member that no member precedes is the minimum. */
  lemma LeastIsMin<T(!new)>(s: seq<T>, cmp: (T, T) -> int, m: T)
    requires StrictTotalOrder(cmp) && m in s
    requires forall x :: x in s ==> cmp(m, x) <= 0
    ensures Min(s, cmp) == m
  {
    MinLeast(s, cmp);
    var k := Min(s, cmp);
    assert cmp(m, k) <= 0 && cmp(k, m) <= 0;
  }
}
