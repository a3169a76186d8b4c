/**
 * The few pieces of the Java platform that the todo core relies on:
 * nullable references and java.util.Optional, Boolean.parseBoolean
 * (with String.equalsIgnoreCase) and String.hashCode with 32-bit
 * int arithmetic.
 */
module JavaLang {

  /** A Java reference that may be null, or a java.util.Optional:
      None stands for null and for Optional.empty(). */
  datatype Option<+T> = None | Some(value: T)

  /** Java's 32-bit signed int. */
  newtype int32 = x: int | -0x8000_0000 <= x < 0x8000_0000

  const TWO_32: int := 0x1_0000_0000

  /** The int a Java int expression yields for the mathematical value x
      (arithmetic wraps around modulo 2^32). */
  function ToInt32(x: int): (r: int32)
    ensures Congruent(r as int, x)
    ensures -0x8000_0000 <= x < 0x8000_0000 ==> r as int == x
  {
    var m := x % TWO_32;
    if m < 0x8000_0000 then m as int32 else (m - TWO_32) as int32
  }

  /** Character.toLowerCase on the ASCII letters; every other character
      is left as it is. */
  function ToLowerAscii(c: char): (r: char)
    ensures 'A' <= c <= 'Z' ==> 'a' <= r <= 'z' && r as int - c as int == 32
    ensures !('A' <= c <= 'Z') ==> r == c
  {
    if 'A' <= c <= 'Z' then (c as int + 32) as char else c
  }

  /** String.equalsIgnoreCase, with case folding on ASCII letters. */
  predicate EqualsIgnoreCase(a: string, b: string): (r: bool)
    ensures a == b ==> r
    ensures r ==> |a| == |b|
    ensures r ==> forall i :: 0 <= i < |a| && 'a' <= b[i] <= 'z' ==> a[i] == b[i] || a[i] as int == b[i] as int - 32
  {
    |a| == |b| && forall i :: 0 <= i < |a| ==> ToLowerAscii(a[i]) == ToLowerAscii(b[i])
  }

  /** Boolean.parseBoolean (and Boolean.valueOf(String)): true exactly when
      the argument is non-null and equals "true" ignoring case; it never
      fails, any other text is false. */
  predicate ParseBoolean(s: Option<string>): (r: bool)
    ensures s == Some("true") ==> r
    ensures r ==> s.Some? && |s.value| == 4
  {
    s.Some? && EqualsIgnoreCase(s.value, "true")
  }

  /** The only characters that fold to a given lower-case ASCII letter are
      that letter and its upper-case form. */
  lemma FoldsTo(c: char, lower: char)
    requires 'a' <= lower <= 'z'
    ensures ToLowerAscii(c) == lower <==> c == lower || c as int == lower as int - 32
  {
  }

  /** parseBoolean accepts exactly the sixteen spellings of "true" that
      differ from it in the case of its letters. */
  lemma {:induction false} ParseBooleanSpellings(s: Option<string>)
    ensures ParseBoolean(s) <==>
      s.Some? && |s.value| == 4 &&
      s.value[0] in "tT" && s.value[1] in "rR" && s.value[2] in "uU" && s.value[3] in "eE"
  {
    if s.Some? && |s.value| == 4 {
      var w := s.value;
      FoldsTo(w[0], 't');
      FoldsTo(w[1], 'r');
      FoldsTo(w[2], 'u');
      FoldsTo(w[3], 'e');
      if ParseBoolean(s) {
        assert ToLowerAscii(w[0]) == 't' && ToLowerAscii(w[1]) == 'r';
        assert ToLowerAscii(w[2]) == 'u' && ToLowerAscii(w[3]) == 'e';
      } else if w[0] in "tT" && w[1] in "rR" && w[2] in "uU" && w[3] in "eE" {
        assert forall i :: 0 <= i < 4 ==> ToLowerAscii(w[i]) == ToLowerAscii("true"[i]);
        assert false;
      }
    }
  }

  /** A few values of parseBoolean: null and unrelated words are false. */
  lemma ParseBooleanExamples()
    ensures ParseBoolean(Some("true")) && ParseBoolean(Some("TRUE")) && ParseBoolean(Some("tRuE"))
    ensures !ParseBoolean(None) && !ParseBoolean(Some("false")) && !ParseBoolean(Some("yes"))
    ensures !ParseBoolean(Some("")) && !ParseBoolean(Some("true "))
  {
    ParseBooleanSpellings(Some("true"));
    ParseBooleanSpellings(Some("TRUE"));
    ParseBooleanSpellings(Some("tRuE"));
    ParseBooleanSpellings(Some("false"));
    ParseBooleanSpellings(Some("yes"));
  }

  /** A UTF-16 code unit, the element of a Java char[]. */
  type CodeUnit = x: int | 0 <= x < 0x1_0000

  /** The UTF-16 encoding of one character: the character itself when it
      lies in the Basic Multilingual Plane, otherwise a high surrogate
      followed by a low surrogate that together decode back to it. */
  function Utf16(c: char): (r: seq<CodeUnit>)
    ensures c as int < 0x1_0000 ==> r == [c as int]
    ensures c as int >= 0x1_0000 ==>
      && |r| == 2
      && 0xD800 <= r[0] < 0xDC00 && 0xDC00 <= r[1] < 0xE000
      && (r[0] as int - 0xD800) * 0x400 + (r[1] as int - 0xDC00) + 0x1_0000 == c as int
  {
    if c as int < 0x1_0000 then [c as int]
    else
      var v := c as int - 0x1_0000;
      [0xD800 + v / 0x400, 0xDC00 + v % 0x400]
  }

  /** The code units a Java String holds for s, character by character. */
  function CodeUnits(s: string): (r: seq<CodeUnit>)
    ensures |s| <= |r| <= 2 * |s|
    ensures (forall i :: 0 <= i < |s| ==> s[i] as int < 0x1_0000) ==>
      |r| == |s| && forall i :: 0 <= i < |s| ==> r[i] == s[i] as int
  {
    if s == [] then []
    else
      var p := s[..|s| - 1];
      assert forall i :: 0 <= i < |p| ==> p[i] == s[i];
      CodeUnits(p) + Utf16(s[|s| - 1])
  }

  function Pow31(n: nat): int
  {
    if n == 0 then 1 else 31 * Pow31(n - 1)
  }

  /** The documented value of String.hashCode in unbounded arithmetic:
      u[0]*31^(n-1) + u[1]*31^(n-2) + ... + u[n-1] over the code units. */
  function PolynomialHash(u: seq<int>): int
  {
    if u == [] then 0 else u[0] * Pow31(|u| - 1) + PolynomialHash(u[1..])
  }

  lemma {:induction false} PolynomialHashSnoc(u: seq<int>, c: int)
    ensures PolynomialHash(u + [c]) == 31 * PolynomialHash(u) + c
  {
    if u == [] {
      assert u + [c] == [c];
    } else {
      var t := u + [c];
      assert t[0] == u[0] && t[1..] == u[1..] + [c];
      PolynomialHashSnoc(u[1..], c);
      calc {
        PolynomialHash(t);
        u[0] * Pow31(|u|) + PolynomialHash(u[1..] + [c]);
        u[0] * (31 * Pow31(|u| - 1)) + 31 * PolynomialHash(u[1..]) + c;
        { assert u[0] * (31 * Pow31(|u| - 1)) == 31 * (u[0] * Pow31(|u| - 1)); }
        31 * PolynomialHash(u) + c;
      }
    }
  }

  /** The loop of String.hashCode over the code units, h = 31 * h + unit
      in int arithmetic; it agrees with the documented polynomial modulo
      2^32. */
  function UnitsHash(u: seq<CodeUnit>): (r: int32)
    ensures Congruent(r as int, PolynomialHash(u))
  {
    if u == [] then 0
    else
      var p, c := u[..|u| - 1], u[|u| - 1];
      var x := 31 * UnitsHash(p) as int + c;
      assert u == p + [c];
      PolynomialHashSnoc(p, c);
      CongruentStep(UnitsHash(p) as int, PolynomialHash(p), c);
      CongruentTrans(ToInt32(x) as int, x, PolynomialHash(u));
      ToInt32(x)
  }

  /** String.hashCode: the polynomial hash of the string's UTF-16 code
      units, modulo 2^32. */
  function StringHashCode(s: string): (r: int32)
    ensures Congruent(r as int, PolynomialHash(CodeUnits(s)))
  {
    UnitsHash(CodeUnits(s))
  }

  /** A few values: "" hashes to 0, "ab" to 97 * 31 + 98, and U+1F600,
      outside the Basic Multilingual Plane, to its surrogate pair
      0xD83D * 31 + 0xDE00. */
  lemma StringHashCodeExamples()
    ensures StringHashCode("") == 0
    ensures StringHashCode("ab") as int == 3105
    ensures StringHashCode("\U{1F600}") as int == 1772899
  {
    assert CodeUnits("ab") == [97, 98];
    assert UnitsHash([97]) as int == 97 by { assert [97][..0] == []; }
    assert [97, 98][..1] == [97];
    var smile := "\U{1F600}";
    assert CodeUnits(smile) == [0xD83D, 0xDE00] by { assert smile[..0] == []; }
    assert UnitsHash([0xD83D]) as int == 0xD83D by { assert [0xD83D][..0] == []; }
    assert [0xD83D, 0xDE00][..1] == [0xD83D];
  }

  /** a and b are equal modulo 2^32. */
  predicate Congruent(a: int, b: int)
  {
    (a - b) % TWO_32 == 0
  }

  lemma MultipleMod(k: int)
    ensures (TWO_32 * k) % TWO_32 == 0
  {
  }

  lemma CongruentStep(a: int, b: int, c: int)
    requires Congruent(a, b)
    ensures Congruent(31 * a + c, 31 * b + c)
  {
    var k := (a - b) / TWO_32;
    assert a - b == TWO_32 * k;
    MultipleMod(31 * k);
    assert (31 * a + c) - (31 * b + c) == 31 * (a - b);
  }

  lemma CongruentTrans(a: int, b: int, c: int)
    requires Congruent(a, b) && Congruent(b, c)
    ensures Congruent(a, c)
  {
    var k, l := (a - b) / TWO_32, (b - c) / TWO_32;
    assert a - b == TWO_32 * k && b - c == TWO_32 * l;
    assert a - c == TWO_32 * (k + l);
  }
}
