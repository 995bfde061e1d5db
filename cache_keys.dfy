/** Key derivation of the translation cache. A key is
    `fromLang + ":" + toLang + ":" + hash36`, where the hash is a rolling hash
    with multiplier 31 over the UTF-16 code units of the text, kept in 32-bit
    signed range by wrap-around, and hash36 is its base-36 rendering. The hash
    is not collision-free (see `CollidingTexts`): two texts with equal hashes
    share a cache slot, an accepted approximation of a performance cache. */
module CacheKeys {

  const TWO_32: int := 0x1_0000_0000
  const TWO_31: int := 0x8000_0000

  /** ECMAScript ToInt32: the value modulo 2^32, taken into [-2^31, 2^31). */
  function ToInt32(x: int): (r: int)
    ensures -TWO_31 <= r < TWO_31
    ensures (x - r) % TWO_32 == 0
  {
    var m := x % TWO_32;
    if m >= TWO_31 then m - TWO_32 else m
  }

  /** One turn of the hash loop, `hash = ((hash << 5) - hash) + char` followed
      by `hash = hash & hash`: the shift wraps its 32-bit operand and result,
      the bitwise and wraps the sum. */
  function HashStep(h: int, c: int): int {
    ToInt32(ToInt32(ToInt32(h) * 32) - h + c)
  }

  /** The hash of a sequence of code units, computed left to right from 0. */
  function HashCode(units: seq<int>): (r: int)
    ensures -TWO_31 <= r < TWO_31
  {
    if units == [] then 0
    else HashStep(HashCode(units[..|units| - 1]), units[|units| - 1])
  }

  /** Reference definition without wrap-around: the units read as the digits,
      most significant first, of a number in base 31. */
  function Polynomial(units: seq<int>): int {
    if units == [] then 0
    else 31 * Polynomial(units[..|units| - 1]) + units[|units| - 1]
  }

  /** The UTF-16 code units of one character, as `charCodeAt` reports them:
      one unit inside the Basic Multilingual Plane, a surrogate pair above it. */
  function CodeUnits(c: char): (us: seq<int>)
    ensures 1 <= |us| <= 2
    ensures forall i :: 0 <= i < |us| ==> 0 <= us[i] < 0x10000
  {
    var v := c as int;
    if v < 0x10000 then [v]
    else [0xD800 + (v - 0x10000) / 0x400, 0xDC00 + (v - 0x10000) % 0x400]
  }

  /** The string as JavaScript stores it: its UTF-16 code units. */
  function Utf16(s: string): (us: seq<int>)
    ensures |us| >= |s|
    ensures forall i :: 0 <= i < |us| ==> 0 <= us[i] < 0x10000
  {
    if s == [] then [] else CodeUnits(s[0]) + Utf16(s[1..])
  }

  function TextHash(text: string): int {
    HashCode(Utf16(text))
  }

  function DigitChar(d: nat): (c: char)
    requires d < 36
    ensures c != '-' && c != ':'
  {
    if d < 10 then ('0' as int + d) as char else ('a' as int + d - 10) as char
  }

  function DigitValue(c: char): nat {
    if '0' <= c <= '9' then c as int - '0' as int
    else if 'a' <= c <= 'z' then c as int - 'a' as int + 10
    else 0
  }

  /** The base-36 digits of a natural number, most significant first. */
  function Digits36(n: nat): (s: string)
    ensures |s| >= 1 && '-' !in s && ':' !in s
    decreases n
  {
    if n < 36 then [DigitChar(n)] else Digits36(n / 36) + [DigitChar(n % 36)]
  }

  /** `Number.prototype.toString(36)` on an integer: a minus sign, then the
      digits of the magnitude. */
  function Base36(n: int): (s: string)
    ensures |s| >= 1 && ':' !in s
  {
    if n < 0 then "-" + Digits36(-n) else Digits36(n)
  }

  function ParseDigits36(s: string): int {
    if s == [] then 0 else 36 * ParseDigits36(s[..|s| - 1]) + DigitValue(s[|s| - 1])
  }

  /** Reads back what `Base36` writes. */
  function ParseBase36(s: string): int {
    if |s| > 0 && s[0] == '-' then -ParseDigits36(s[1..]) else ParseDigits36(s)
  }

  /** `getCacheKey`: the language pair and the base-36 hash, joined by colons. */
  function CacheKey(text: string, fromLang: string, toLang: string): string {
    fromLang + ":" + toLang + ":" + Base36(TextHash(text))
  }

  // ---------------------------------------------------------------------------
  // Wrap-around arithmetic

  /** Numbers congruent modulo 2^32 have the same 32-bit value. */
  lemma Int32Congruent(x: int, y: int)
    requires (x - y) % TWO_32 == 0
    ensures ToInt32(x) == ToInt32(y)
  {
    assert x % TWO_32 == y % TWO_32;
  }

  /** Numbers that differ by a multiple of 2^32 have the same 32-bit value. */
  lemma Int32Shift(x: int, y: int, k: int)
    requires x - y == TWO_32 * k
    ensures ToInt32(x) == ToInt32(y)
  {
    assert (TWO_32 * k) % TWO_32 == 0;
    Int32Congruent(x, y);
  }

  /** The distance from a number to its 32-bit value, in multiples of 2^32. */
  lemma Int32Offset(x: int) returns (k: int)
    ensures x - ToInt32(x) == TWO_32 * k
  {
    k := (x - ToInt32(x)) / TWO_32;
  }

  /** Values already in 32-bit range are left alone. */
  lemma Int32Identity(x: int)
    requires -TWO_31 <= x < TWO_31
    ensures ToInt32(x) == x
  {
    if x >= 0 {
      assert x % TWO_32 == x;
    } else {
      assert x % TWO_32 == x + TWO_32;
    }
  }

  /** The shift-subtract-add of one loop turn is multiplication by 31 and
      addition, reduced to 32 bits once at the end. */
  lemma HashStepIsWrappedAffine(h: int, c: int)
    ensures HashStep(h, c) == ToInt32(31 * h + c)
  {
    var t := ToInt32(h);
    var s := ToInt32(t * 32);
    var a := Int32Offset(h);
    var b := Int32Offset(t * 32);
    assert h == t + TWO_32 * a;
    assert t * 32 == s + TWO_32 * b;
    assert (s - h + c) - (31 * h + c) == TWO_32 * (-b - 32 * a);
    Int32Shift(s - h + c, 31 * h + c, -b - 32 * a);
  }

  /** The wrapped rolling hash is the base-31 polynomial of the code units
      reduced to a signed 32-bit integer. */
  lemma {:induction false} HashIsWrappedPolynomial(units: seq<int>)
    ensures HashCode(units) == ToInt32(Polynomial(units))
  {
    if units != [] {
      var init, c := units[..|units| - 1], units[|units| - 1];
      HashIsWrappedPolynomial(init);
      var h, p := HashCode(init), Polynomial(init);
      HashStepIsWrappedAffine(h, c);
      var k := Int32Offset(p);
      assert p == h + TWO_32 * k;
      assert (31 * p + c) - (31 * h + c) == TWO_32 * (31 * k);
      Int32Shift(31 * p + c, 31 * h + c, 31 * k);
    }
  }

  // ---------------------------------------------------------------------------
  // Base 36

  lemma {:induction false} Digits36RoundTrip(n: nat)
    ensures ParseDigits36(Digits36(n)) == n
  {
    if n >= 36 {
      Digits36RoundTrip(n / 36);
      var s := Digits36(n);
      assert s[..|s| - 1] == Digits36(n / 36);
    }
  }

  lemma Base36RoundTrip(n: int)
    ensures ParseBase36(Base36(n)) == n
  {
    if n < 0 {
      Digits36RoundTrip(-n);
      assert Base36(n)[1..] == Digits36(-n);
    } else {
      Digits36RoundTrip(n);
      assert Digits36(n)[0] in Digits36(n);
    }
  }

  /** Distinct hashes render as distinct strings. */
  lemma Base36Injective(a: int, b: int)
    ensures Base36(a) == Base36(b) <==> a == b
  {
    Base36RoundTrip(a);
    Base36RoundTrip(b);
  }

  // ---------------------------------------------------------------------------
  // Keys

  /** The empty text hashes to 0 and so ends its key in ":0". */
  lemma EmptyTextKey(fromLang: string, toLang: string)
    ensures TextHash("") == 0
    ensures CacheKey("", fromLang, toLang) == fromLang + ":" + toLang + ":0"
  {
  }

  /** For one language pair, two texts share a key exactly when their hashes
      are equal. */
  lemma SameLanguagesKey(t1: string, t2: string, fromLang: string, toLang: string)
    ensures CacheKey(t1, fromLang, toLang) == CacheKey(t2, fromLang, toLang)
            <==> TextHash(t1) == TextHash(t2)
  {
    var prefix := fromLang + ":" + toLang + ":";
    var b1, b2 := Base36(TextHash(t1)), Base36(TextHash(t2));
    if prefix + b1 == prefix + b2 {
      assert b1 == (prefix + b1)[|prefix|..];
      assert b2 == (prefix + b2)[|prefix|..];
    }
    Base36Injective(TextHash(t1), TextHash(t2));
  }

  /** Index of the first colon, or the length when there is none. */
  function FirstColon(s: string): (i: nat)
    ensures i <= |s|
  {
    if s == [] || s[0] == ':' then 0 else 1 + FirstColon(s[1..])
  }

  lemma {:induction false} FirstColonAfter(a: string, r: string)
    requires ':' !in a
    ensures FirstColon(a + ":" + r) == |a|
  {
    if a != [] {
      assert (a + ":" + r)[1..] == a[1..] + ":" + r;
      FirstColonAfter(a[1..], r);
    }
  }

  lemma SplitAtColon(a: string, r1: string, b: string, r2: string)
    requires ':' !in a && ':' !in b
    requires a + ":" + r1 == b + ":" + r2
    ensures a == b && r1 == r2
  {
    var s := a + ":" + r1;
    FirstColonAfter(a, r1);
    FirstColonAfter(b, r2);
    assert a == s[..|a|] && b == s[..|b|];
    assert r1 == s[|a| + 1..] && r2 == s[|b| + 1..];
  }

  /** With colon-free language codes, a key determines both languages and the
      hash of the text. */
  lemma KeyDeterminesFields(t1: string, from1: string, to1: string,
                            t2: string, from2: string, to2: string)
    requires ':' !in from1 && ':' !in to1 && ':' !in from2 && ':' !in to2
    ensures CacheKey(t1, from1, to1) == CacheKey(t2, from2, to2)
            <==> from1 == from2 && to1 == to2 && TextHash(t1) == TextHash(t2)
  {
    var b1, b2 := Base36(TextHash(t1)), Base36(TextHash(t2));
    if CacheKey(t1, from1, to1) == CacheKey(t2, from2, to2) {
      assert CacheKey(t1, from1, to1) == from1 + ":" + (to1 + ":" + b1);
      assert CacheKey(t2, from2, to2) == from2 + ":" + (to2 + ":" + b2);
      SplitAtColon(from1, to1 + ":" + b1, from2, to2 + ":" + b2);
      SplitAtColon(to1, b1, to2, b2);
      Base36Injective(TextHash(t1), TextHash(t2));
    }
  }

  /** The hash of two code units, worked out step by step. */
  lemma HashOfPair(u: int, v: int)
    requires 0 <= u < 0x10000 && 0 <= v < 0x10000
    ensures HashCode([u, v]) == 31 * u + v
  {
    assert HashCode([u]) == u by {
      assert [u][..0] == [];
      HashStepIsWrappedAffine(0, u);
      Int32Identity(u);
    }
    assert [u, v][..1] == [u];
    HashStepIsWrappedAffine(u, v);
    Int32Identity(31 * u + v);
  }

  lemma HashOfAa()
    ensures TextHash("Aa") == 2112
  {
    assert Utf16("Aa") == [65, 97] by {
      assert CodeUnits('A') == [65] && CodeUnits('a') == [97];
      assert "Aa"[1..] == "a" && "a"[1..] == "";
    }
    HashOfPair(65, 97);
  }

  lemma HashOfBB()
    ensures TextHash("BB") == 2112
  {
    assert Utf16("BB") == [66, 66] by {
      assert CodeUnits('B') == [66];
      assert "BB"[1..] == "B" && "B"[1..] == "";
    }
    HashOfPair(66, 66);
  }

  /** "Aa" and "BB" collide: 65 * 31 + 97 == 66 * 31 + 66 == 2112. */
  lemma CollidingTexts(fromLang: string, toLang: string)
    ensures "Aa" != "BB"
    ensures CacheKey("Aa", fromLang, toLang) == CacheKey("BB", fromLang, toLang)
  {
    HashOfAa();
    HashOfBB();
  }

  /** A colon inside a language code makes the key ambiguous. */
  lemma LanguageColonAmbiguity(text: string)
    ensures CacheKey(text, "a:b", "c") == CacheKey(text, "a", "b:c")
  {
  }
}
