/** Bytes as the program sees them: a C++ `char` is signed, so the character
    classes receive a negative number for every byte above 127. */
module Bytes {
  type byte = b: int | 0 <= b < 256
  type bytes = seq<byte>

  const HT: byte := 9
  const LF: byte := 10
  const CR: byte := 13
  const SP: byte := 32
  const COLON: byte := 58
  const CRLF: bytes := [CR, LF]

  /** The value of `char` b after promotion to `int`. */
  function Signed(b: byte): int {
    if b < 128 then b else b - 256
  }

  predicate IsChar(c: int) {
    0 <= c <= 127
  }

  predicate IsCtl(c: int) {
    (0 <= c <= 31) || c == 127
  }

  predicate IsTspecial(c: int) {
    || c == '(' as int || c == ')' as int || c == '<' as int || c == '>' as int || c == '@' as int
    || c == ',' as int || c == ';' as int || c == ':' as int || c == '\\' as int || c == '\"' as int
    || c == '/' as int || c == '[' as int || c == ']' as int || c == '?' as int || c == '=' as int
    || c == '{' as int || c == '}' as int || c == ' ' as int || c == '\t' as int
  }

  predicate IsDigit(c: int) {
    '0' as int <= c <= '9' as int
  }

  /** CHAR that is neither CTL nor tspecial: what a method or a header name is made of. */
  predicate TokenByte(b: byte) {
    IsChar(Signed(b)) && !IsCtl(Signed(b)) && !IsTspecial(Signed(b))
  }

  predicate CtlByte(b: byte) {
    IsCtl(Signed(b))
  }

  predicate DigitByte(b: byte) {
    IsDigit(Signed(b))
  }

  predicate BlankByte(b: byte) {
    b == SP || b == HT
  }

  /** The classes, as sets of byte values: nothing above 127 is in any of them. */
  lemma {:induction false} WhichBytes(b: byte)
    ensures TokenByte(b) <==>
            || 48 <= b <= 57 || 65 <= b <= 90 || 97 <= b <= 122 || b == 33 || 35 <= b <= 39
            || b == 42 || b == 43 || b == 45 || b == 46 || 94 <= b <= 96 || b == 124 || b == 126
    ensures CtlByte(b) <==> b < 32 || b == 127
    ensures DigitByte(b) <==> 48 <= b <= 57
    ensures BlankByte(b) <==> b == 32 || b == 9
  {
  }

  predicate Token(s: bytes) {
    s != [] && forall i :: 0 <= i < |s| ==> TokenByte(s[i])
  }

  predicate NoCtl(s: bytes) {
    forall i :: 0 <= i < |s| ==> !CtlByte(s[i])
  }

  predicate Digits(s: bytes) {
    forall i :: 0 <= i < |s| ==> DigitByte(s[i])
  }

  predicate AsciiOnly(s: bytes) {
    forall i :: 0 <= i < |s| ==> s[i] < 128
  }

  /** The number a digit string denotes, most significant digit first. */
  function Decimal(s: bytes): int {
    if s == [] then 0 else Decimal(Front(s)) * 10 + (Last(s) as int - 48)
  }

  /** The bytes of an ASCII literal. */
  function Ascii(s: string): (r: bytes)
    ensures |r| == |s| && forall i :: 0 <= i < |s| && s[i] < 128 as char ==> r[i] == s[i] as int
  {
    seq(|s|, i requires 0 <= i < |s| => if s[i] < 128 as char then s[i] as int else 0)
  }

  function Last<T>(s: seq<T>): T
    requires s != []
  {
    s[|s| - 1]
  }

  function Front<T>(s: seq<T>): seq<T>
    requires s != []
  {
    s[..|s| - 1]
  }

  lemma Assoc<T>(a: seq<T>, b: seq<T>, c: seq<T>)
    ensures a + b + c == a + (b + c)
  {
  }

  lemma {:induction false} PrefixOfPrefix<T>(a: seq<T>, b: seq<T>, c: seq<T>)
    requires a <= b && b <= c
    ensures a <= c
  {
    assert c[..|b|][..|a|] == c[..|a|];
  }
}
