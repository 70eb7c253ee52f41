/** Numbers as text: what the C and C++ libraries scan and print. */
module Text {
  import opened Bytes

  /** The sizes that `std::size_t` has. */
  const SIZE_LIMIT: nat := 0x1_0000_0000_0000_0000

  predicate IsSpace(b: byte) {
    b == SP || 9 <= b <= 13
  }

  function SkipSpaces(s: bytes): bytes {
    if s != [] && IsSpace(s[0]) then SkipSpaces(s[1..]) else s
  }

  function DigitsLength(s: bytes): (n: nat)
    ensures n <= |s|
  {
    if s == [] || !DigitByte(s[0]) then 0 else 1 + DigitsLength(s[1..])
  }

  /** The decimal text of a number, without padding. */
  function DecimalText(n: nat): (s: bytes)
    ensures s != [] && Digits(s) && Decimal(s) == n
    ensures if n == 0 then s == ['0' as int] else s[0] != '0' as int
  {
    if n < 10 then assert Decimal([]) == 0; assert Front([48 + n]) == []; [48 + n]
    else
      var s := DecimalText(n / 10);
      assert Front(s + [48 + n % 10]) == s && Last(s + [48 + n % 10]) == 48 + n % 10;
      s + [48 + n % 10]
  }

  lemma {:induction false} DigitsOf(digits: bytes, rest: bytes)
    requires Digits(digits) && (rest != [] ==> !DigitByte(rest[0]))
    ensures DigitsLength(digits + rest) == |digits|
    decreases |digits|
  {
    if digits == [] {
      assert digits + rest == rest;
    } else {
      DigitsOf(digits[1..], rest);
      assert (digits + rest)[1..] == digits[1..] + rest;
    }
  }

  /** `atoi`: white space, an optional sign, digits; 0 if there are none. */
  function Atoi(s: bytes): int {
    var t := SkipSpaces(s);
    var minus := t != [] && t[0] == '-' as int;
    var u := if t != [] && (minus || t[0] == '+' as int) then t[1..] else t;
    var v := Decimal(u[..DigitsLength(u)]);
    if minus then -v else v
  }

  // ------------------------------------------------------ the shape of a text

  /** A text as the scanning functions see it: white space, a sign or none, the digits
      that follow, and the rest. */
  datatype Numeral = Numeral(lead: bytes, sign: bytes, digits: bytes, rest: bytes)

  function TextOf(p: Numeral): bytes {
    p.lead + p.sign + p.digits + p.rest
  }

  predicate Spaces(s: bytes) {
    forall i :: 0 <= i < |s| ==> s[i] == 32 || 9 <= s[i] <= 13
  }

  /** Each part is as long as it can be. */
  predicate IsNumeral(p: Numeral) {
    && Spaces(p.lead) && (p.sign == [] || p.sign == ['+' as int] || p.sign == ['-' as int]) && Digits(p.digits)
    && (p.rest != [] ==> !DigitByte(p.rest[0]))
    && (p.rest != [] && p.sign + p.digits == [] ==> !IsSpace(p.rest[0]) && p.rest[0] != '+' as int && p.rest[0] != '-' as int)
  }

  lemma {:induction false} SpacesSkipped(lead: bytes, s: bytes)
    requires Spaces(lead) && (s != [] ==> !IsSpace(s[0]))
    ensures SkipSpaces(lead + s) == s
    decreases |lead|
  {
    if lead == [] {
      assert lead + s == s;
    } else {
      SpacesSkipped(lead[1..], s);
      assert (lead + s)[1..] == lead[1..] + s;
    }
  }

  lemma {:induction false} LeadOf(s: bytes) returns (lead: bytes)
    ensures Spaces(lead) && s == lead + SkipSpaces(s) && (SkipSpaces(s) != [] ==> !IsSpace(SkipSpaces(s)[0]))
    decreases |s|
  {
    lead := [];
    if s != [] && IsSpace(s[0]) {
      var l := LeadOf(s[1..]);
      lead := [s[0]] + l;
      assert s == [s[0]] + s[1..];
    }
  }

  lemma {:induction false} DigitsTaken(s: bytes)
    ensures var n := DigitsLength(s);
            Digits(s[..n]) && (n < |s| ==> !DigitByte(s[n]))
    decreases |s|
  {
    if s != [] && DigitByte(s[0]) {
      DigitsTaken(s[1..]);
      assert s[..DigitsLength(s)] == [s[0]] + s[1..][..DigitsLength(s[1..])];
    }
  }

  lemma {:induction false} SignOf(t: bytes) returns (sign: bytes, u: bytes)
    ensures t == sign + u && (sign == [] || sign == ['+' as int] || sign == ['-' as int])
    ensures sign == [] && u != [] ==> u[0] != '+' as int && u[0] != '-' as int
  {
    sign, u := [], t;
    if t != [] && (t[0] == '-' as int || t[0] == '+' as int) {
      sign, u := [t[0]], t[1..];
    }
  }

  /** Every text has such a shape. */
  lemma {:induction false} EveryText(s: bytes) returns (p: Numeral)
    ensures IsNumeral(p) && TextOf(p) == s
  {
    var lead := LeadOf(s);
    var t := SkipSpaces(s);
    var sign, u := SignOf(t);
    var n := DigitsLength(u);
    DigitsTaken(u);
    p := Numeral(lead, sign, u[..n], u[n..]);
    hide SkipSpaces, DigitsLength, Spaces, Digits, DigitByte, IsSpace;
    assert n < |u| ==> p.rest[0] == u[n];
    assert n == 0 ==> p.rest == u;
    assert n == 0 && sign == [] ==> p.rest == t;
    assert IsNumeral(p);
    ShapeJoins(s, p, t, u);
  }

  lemma {:induction false} ShapeJoins(s: bytes, p: Numeral, t: bytes, u: bytes)
    requires s == p.lead + t && t == p.sign + u && u == p.digits + p.rest
    ensures TextOf(p) == s
  {
  }

  lemma {:induction false} AfterLead(p: Numeral, u: bytes)
    requires IsNumeral(p) && u == p.digits + p.rest
    ensures p.sign == [] && u != [] ==> !IsSpace(u[0]) && u[0] != '+' as int && u[0] != '-' as int
    ensures p.sign != [] ==> !IsSpace(p.sign[0])
  {
    assert p.digits != [] ==> u[0] == p.digits[0];
    assert p.digits == [] ==> u == p.rest;
    assert p.digits != [] ==> DigitByte(p.digits[0]);
  }

  /** What the scanning functions make of a shape. */
  lemma {:induction false} ScanOf(p: Numeral) returns (u: bytes)
    requires IsNumeral(p)
    ensures SkipSpaces(TextOf(p)) == p.sign + u && |p.sign| <= 1
    ensures p.sign == [] && u != [] ==> u[0] != '+' as int && u[0] != '-' as int
    ensures DigitsLength(u) == |p.digits| && u[..|p.digits|] == p.digits && u[|p.digits|..] == p.rest
  {
    u := p.digits + p.rest;
    AfterLead(p, u);
    DigitsOf(p.digits, p.rest);
    assert Spaces(p.lead) && |p.sign| <= 1;
    hide IsNumeral, DigitsLength, SkipSpaces, IsSpace, Spaces;
    var t := p.sign + u;
    assert p.sign == [] ==> t == u;
    assert TextOf(p) == p.lead + t;
    SpacesSkipped(p.lead, t);
  }

  lemma {:induction false} AtoiOf(p: Numeral)
    requires IsNumeral(p)
    ensures Atoi(TextOf(p)) == if p.sign == ['-' as int] then -Decimal(p.digits) else Decimal(p.digits)
  {
    var u := ScanOf(p);
    assert p.sign == [] || p.sign == ['+' as int] || p.sign == ['-' as int];
    hide SkipSpaces, DigitsLength, TextOf, Decimal, IsNumeral;
    assert p.sign == [] ==> p.sign + u == u;
    assert p.sign != [] ==> (p.sign + u)[1..] == u;
  }

  /** A C string: the bytes before the first NUL. */
  function UpToNul(s: bytes): bytes {
    if s == [] || s[0] == 0 then [] else [s[0]] + UpToNul(s[1..])
  }

  /** That is the longest beginning without a NUL. */
  lemma {:induction false} UpToNulIs(s: bytes)
    ensures UpToNul(s) <= s && 0 !in UpToNul(s)
    ensures |UpToNul(s)| < |s| ==> s[|UpToNul(s)|] == 0
    decreases |s|
  {
    if s != [] && s[0] != 0 {
      UpToNulIs(s[1..]);
      assert s == [s[0]] + s[1..];
    }
  }

  lemma {:induction false} UpToNulSkips(a: bytes, b: bytes)
    requires 0 !in a
    ensures UpToNul(a + b) == a + UpToNul(b)
    decreases |a|
  {
    if a == [] {
      assert a + b == b;
    } else {
      UpToNulSkips(a[1..], b);
      assert (a + b)[1..] == a[1..] + b && a == [a[0]] + a[1..];
      assert a + UpToNul(b) == [a[0]] + (a[1..] + UpToNul(b));
    }
  }
}
