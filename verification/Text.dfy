/**
 Byte strings: lexicographic order, UTF-8 validity, ASCII case folding and decimal rendering.

 Both Rust strings and DNS labels are byte strings; a Rust `String` is one that is valid UTF-8.
 */
module Text {
  import opened Ordering

  newtype Byte = b: int | 0 <= b < 256

  type Str = seq<Byte>

  const DASH: Byte := 45
  const ZERO: Byte := 48
  const NINE: Byte := 57
  const EQUALS: Byte := 61

  // ---- the order of String ----

  predicate StrLe(a: Str, b: Str) {
    if a == [] then true
    else if b == [] then false
    else if a[0] != b[0] then a[0] < b[0]
    else StrLe(a[1..], b[1..])
  }

  lemma {:induction false} StrLeTotal(a: Str, b: Str)
    ensures StrLe(a, b) || StrLe(b, a)
    ensures StrLe(a, b) && StrLe(b, a) ==> a == b
    ensures a == b ==> StrLe(a, b)
  {
    if a != [] && b != [] && a[0] == b[0] {
      StrLeTotal(a[1..], b[1..]);
      assert a == [a[0]] + a[1..] && b == [b[0]] + b[1..];
    }
  }

  lemma {:induction false} StrLeTransitive(a: Str, b: Str, c: Str)
    requires StrLe(a, b) && StrLe(b, c)
    ensures StrLe(a, c)
  {
    if a != [] && a[0] == b[0] == c[0] {
      StrLeTransitive(a[1..], b[1..], c[1..]);
    }
  }

  lemma StrOrder()
    ensures TotalOrder(StrLe)
  {
    forall a, b ensures StrLe(a, b) || StrLe(b, a) { StrLeTotal(a, b); }
    forall a, b ensures StrLe(a, b) && StrLe(b, a) ==> a == b { StrLeTotal(a, b); }
    forall a ensures StrLe(a, a) { StrLeTotal(a, a); }
    forall a, b, c | StrLe(a, b) && StrLe(b, c) ensures StrLe(a, c) { StrLeTransitive(a, b, c); }
  }

  /** a and b agree before position n, where a ends or has the smaller byte. */
  ghost predicate Before(a: Str, b: Str, n: nat) {
    && n <= |a| && n <= |b| && a[..n] == b[..n]
    && (n == |a| || (n < |b| && a[n] < b[n]))
  }

  /** The order is lexicographic. */
  lemma {:induction false} StrLeMeans(a: Str, b: Str)
    ensures StrLe(a, b) <==> exists n: nat :: Before(a, b, n)
  {
    forall n: nat | Before(a, b, n) && n > 0 ensures a[0] == b[0] {
      assert a[..n][0] == b[..n][0];
    }
    if a == [] || b == [] || a[0] != b[0] {
      assert StrLe(a, b) ==> Before(a, b, 0);
    } else {
      StrLeMeans(a[1..], b[1..]);
      forall n: nat ensures Before(a[1..], b[1..], n) ==> Before(a, b, n + 1) {
        if Before(a[1..], b[1..], n) {
          assert a[..n + 1] == [a[0]] + a[1..][..n] && b[..n + 1] == [b[0]] + b[1..][..n];
        }
      }
      forall n: nat ensures Before(a, b, n) ==> n > 0 && Before(a[1..], b[1..], n - 1) {
        if Before(a, b, n) {
          assert a[1..][..n - 1] == a[..n][1..] && b[1..][..n - 1] == b[..n][1..];
        }
      }
    }
  }

  /** The order in which a map with string keys is traversed. */
  function StrList(s: set<Str>): (r: seq<Str>)
    ensures forall k :: k in r <==> k in s
    ensures forall i, j :: 0 <= i < j < |r| ==> r[i] != r[j]
  {
    StrOrder();
    var r := Enumerate(s, StrLe);
    assert forall k :: k in r <==> k in Elements(r);
    r
  }

  lemma StrListIsSorted(s: set<Str>)
    ensures StrictlySorted(StrList(s), StrLe) && |StrList(s)| == |s|
  {
    StrOrder();
    DistinctSize(StrList(s));
    assert Elements(StrList(s)) == s;
  }

  // ---- UTF-8 ----

  predicate InRange(s: Str, i: nat, lo: Byte, hi: Byte) {
    i < |s| && lo <= s[i] <= hi
  }

  predicate Tail(s: Str, i: nat) {
    InRange(s, i, 0x80, 0xBF)
  }

  /** The length of the well-formed UTF-8 sequence at the front of `s`, 0 if there is none. */
  function CharLength(s: Str): (n: nat)
    ensures n <= |s|
  {
    if InRange(s, 0, 0x00, 0x7F) then 1
    else if InRange(s, 0, 0xC2, 0xDF) && Tail(s, 1) then 2
    else if InRange(s, 0, 0xE0, 0xEF) && Tail(s, 1) && Tail(s, 2)
         && (s[0] == 0xE0 ==> 0xA0 <= s[1]) && (s[0] == 0xED ==> s[1] <= 0x9F) then 3
    else if InRange(s, 0, 0xF0, 0xF4) && Tail(s, 1) && Tail(s, 2) && Tail(s, 3)
         && (s[0] == 0xF0 ==> 0x90 <= s[1]) && (s[0] == 0xF4 ==> s[1] <= 0x8F) then 4
    else 0
  }

  /** What `std::str::from_utf8` accepts. */
  predicate ValidUtf8(s: Str) {
    s == [] || (CharLength(s) > 0 && ValidUtf8(s[CharLength(s)..]))
  }

  /** The Unicode scalar values: all code points but the surrogates. */
  predicate Scalar(c: nat) {
    c < 0xD800 || 0xE000 <= c < 0x110000
  }

  function Continuation(bits: nat): Byte
  {
    (0x80 + bits % 64) as Byte
  }

  /** The UTF-8 form of a scalar value (section 3 of RFC 3629). */
  function EncodeChar(c: nat): Str
    requires Scalar(c)
  {
    if c < 0x80 then [c as Byte]
    else if c < 0x800 then [(0xC0 + c / 64) as Byte, Continuation(c)]
    else if c < 0x10000 then [(0xE0 + c / 4096) as Byte, Continuation(c / 64), Continuation(c)]
    else [(0xF0 + c / 262144) as Byte, Continuation(c / 4096), Continuation(c / 64), Continuation(c)]
  }

  function EncodeChars(cs: seq<nat>): Str
    requires forall c :: c in cs ==> Scalar(c)
  {
    if cs == [] then [] else EncodeChar(cs[0]) + EncodeChars(cs[1..])
  }

  lemma EncodedCharIsFirst(c: nat, rest: Str)
    requires Scalar(c)
    ensures CharLength(EncodeChar(c) + rest) == |EncodeChar(c)|
  {
    var s := EncodeChar(c) + rest;
    assert forall i :: 0 <= i < |EncodeChar(c)| ==> s[i] == EncodeChar(c)[i];
  }

  lemma Sextet(high: nat, low: nat)
    requires low < 64
    ensures (high * 64 + low) / 64 == high && (high * 64 + low) % 64 == low
  {
  }

  lemma DividesTwice(c: nat)
    ensures c / 64 / 64 == c / 4096 && c / 4096 / 64 == c / 262144
  {
  }

  /** The code point that continuation bytes extend. */
  function Extend(c: nat, b: Byte): nat {
    c * 64 + (b as nat) % 64
  }

  lemma ExtendMeans(c: nat, s: Str, i: nat)
    requires Tail(s, i)
    ensures Extend(c, s[i]) / 64 == c && Continuation(Extend(c, s[i])) == s[i]
    ensures Extend(c, s[i]) == c * 64 + (s[i] as nat - 0x80)
  {
    var low := s[i] as nat - 0x80;
    Sextet(c, low);
  }

  /** Every well-formed sequence is the form of a scalar value. */
  lemma FirstCharIsEncoded(s: Str) returns (c: nat)
    requires CharLength(s) > 0
    ensures Scalar(c) && s[..CharLength(s)] == EncodeChar(c)
  {
    hide Extend, Continuation;
    var n := CharLength(s);
    var b0 := s[0] as nat;
    if n == 1 {
      c := b0;
    } else if n == 2 {
      ExtendMeans(b0 - 0xC0, s, 1);
      c := Extend(b0 - 0xC0, s[1]);
    } else if n == 3 {
      c := ThreeBytes(s);
    } else {
      c := FourBytes(s);
    }
  }

  lemma ThreeBytes(s: Str) returns (c: nat)
    requires CharLength(s) == 3
    ensures Scalar(c) && s[..3] == EncodeChar(c)
  {
    hide Extend, Continuation;
    var c0 := s[0] as nat - 0xE0;
    ExtendMeans(c0, s, 1);
    var c1 := Extend(c0, s[1]);
    ExtendMeans(c1, s, 2);
    c := Extend(c1, s[2]);
    DividesTwice(c);
  }

  lemma FourBytes(s: Str) returns (c: nat)
    requires CharLength(s) == 4
    ensures Scalar(c) && s[..4] == EncodeChar(c)
  {
    hide Extend, Continuation;
    var c0 := s[0] as nat - 0xF0;
    ExtendMeans(c0, s, 1);
    var c1 := Extend(c0, s[1]);
    ExtendMeans(c1, s, 2);
    var c2 := Extend(c1, s[2]);
    ExtendMeans(c2, s, 3);
    c := Extend(c2, s[3]);
    DividesTwice(c);
  }

  /** What is accepted is exactly what encodes a sequence of scalar values. */
  lemma {:induction false} ValidUtf8Means(s: Str)
    ensures ValidUtf8(s) <==> exists cs: seq<nat> :: (forall c :: c in cs ==> Scalar(c)) && s == EncodeChars(cs)
    decreases |s|
  {
    if ValidUtf8(s) {
      var cs := CharsOf(s);
    }
    if cs: seq<nat> :| (forall c :: c in cs ==> Scalar(c)) && s == EncodeChars(cs) {
      EncodedIsValid(cs);
    }
  }

  lemma {:induction false} CharsOf(s: Str) returns (cs: seq<nat>)
    requires ValidUtf8(s)
    ensures (forall c :: c in cs ==> Scalar(c)) && s == EncodeChars(cs)
    decreases |s|
  {
    hide EncodeChar;
    if s == [] {
      cs := [];
    } else {
      var c := FirstCharIsEncoded(s);
      var rest := CharsOf(s[CharLength(s)..]);
      cs := [c] + rest;
      assert cs[1..] == rest;
      assert s == s[..CharLength(s)] + s[CharLength(s)..];
    }
  }

  lemma {:induction false} EncodedIsValid(cs: seq<nat>)
    requires forall c :: c in cs ==> Scalar(c)
    ensures ValidUtf8(EncodeChars(cs))
  {
    hide CharLength;
    if cs != [] {
      var rest := EncodeChars(cs[1..]);
      EncodedIsValid(cs[1..]);
      EncodedCharIsFirst(cs[0], rest);
      var s := EncodeChars(cs);
      assert s[|EncodeChar(cs[0])|..] == rest;
    }
  }

  lemma {:induction false} ValidUtf8Append(a: Str, b: Str)
    requires ValidUtf8(a) && ValidUtf8(b)
    ensures ValidUtf8(a + b)
  {
    if a == [] {
      assert a + b == b;
    } else {
      var n := CharLength(a);
      assert CharLength(a + b) == n;
      ValidUtf8Append(a[n..], b);
      assert (a + b)[n..] == a[n..] + b;
    }
  }

  lemma {:induction false} AsciiIsUtf8(s: Str)
    requires forall i :: 0 <= i < |s| ==> s[i] < 0x80
    ensures ValidUtf8(s)
  {
    if s != [] {
      AsciiIsUtf8(s[1..]);
    }
  }

  // ---- ASCII case folding ----

  function FoldByte(b: Byte): Byte {
    if 65 <= b <= 90 then b + 32 else b
  }

  function FoldLabel(l: Str): Str {
    seq(|l|, i requires 0 <= i < |l| => FoldByte(l[i]))
  }

  /** Equal, or the same ASCII letter in either case. */
  predicate SameLetter(a: Byte, b: Byte) {
    a == b || (65 <= a <= 90 && b == a + 32) || (65 <= b <= 90 && a == b + 32)
  }

  lemma FoldLabelMeans(a: Str, b: Str)
    ensures FoldLabel(a) == FoldLabel(b) <==> |a| == |b| && forall i :: 0 <= i < |a| ==> SameLetter(a[i], b[i])
  {
    if FoldLabel(a) == FoldLabel(b) {
      assert |FoldLabel(a)| == |a| == |b|;
      forall i | 0 <= i < |a| ensures SameLetter(a[i], b[i]) {
        assert FoldLabel(a)[i] == FoldLabel(b)[i];
      }
    }
  }

  // ---- decimal numbers ----

  predicate IsDigit(b: Byte) {
    ZERO <= b <= NINE
  }

  /** The decimal rendering of a number. */
  function Decimal(n: nat): (s: Str)
    ensures s != []
    ensures forall i :: 0 <= i < |s| ==> IsDigit(s[i])
    ensures n < 10 ==> |s| == 1
  {
    var digit := ZERO + (n % 10) as Byte;
    if n < 10 then [digit] else Decimal(n / 10) + [digit]
  }

  /** The number a digit string denotes. */
  function DecimalValue(s: Str): nat {
    if s == [] || !IsDigit(s[|s| - 1]) then 0
    else DecimalValue(s[..|s| - 1]) * 10 + (s[|s| - 1] - ZERO) as nat
  }

  lemma {:induction false} DecimalRoundTrip(n: nat)
    ensures DecimalValue(Decimal(n)) == n
  {
    if n >= 10 {
      DecimalRoundTrip(n / 10);
      assert Decimal(n)[..|Decimal(n)| - 1] == Decimal(n / 10);
    } else {
      assert Decimal(n)[..0] == [];
    }
  }

  lemma {:induction false} DecimalLength(n: nat, digits: nat, bound: nat)
    requires digits > 0 && n < bound && bound == Pow10(digits)
    ensures |Decimal(n)| <= digits
  {
    if n >= 10 {
      DecimalLength(n / 10, digits - 1, bound / 10);
    }
  }

  function Pow10(n: nat): nat {
    if n == 0 then 1 else 10 * Pow10(n - 1)
  }
}
