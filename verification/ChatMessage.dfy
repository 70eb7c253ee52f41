/** A chat message: four header bytes holding the length of the body as text,
    then up to 512 bytes of body. */
module ChatMessage {
  import opened Bytes
  import opened Options
  import opened Text

  const HEADER_LENGTH: nat := 4
  const MAX_BODY_LENGTH: nat := 512

  // ---------------------------------------------------------- the encoding

  /** `sprintf("%4d", n)` */
  function HeaderText(n: nat): bytes {
    var t := DecimalText(n);
    seq(if |t| < HEADER_LENGTH then HEADER_LENGTH - |t| else 0, _ => SP) + t
  }

  /** Conversion of an `int` to `std::size_t`. */
  function ToSize(v: int): nat {
    v % SIZE_LIMIT
  }

  /** The body length a header announces, or None if `decode_header` refuses it. */
  function DecodedLength(header: bytes): (r: Option<nat>)
    ensures r.Some? ==> r.value <= MAX_BODY_LENGTH
  {
    var n := ToSize(Atoi(UpToNul(header)));
    if n > MAX_BODY_LENGTH then None else Some(n)
  }

  /** The bytes of a message as they are sent. */
  predicate ValidFrame(f: bytes) {
    |f| >= HEADER_LENGTH && DecodedLength(f[..HEADER_LENGTH]) == Some(|f| - HEADER_LENGTH)
  }

  function FrameOf(body: bytes): bytes {
    HeaderText(|body|) + body
  }

  lemma {:induction false} TextLength(n: nat)
    requires n <= MAX_BODY_LENGTH
    ensures 1 <= |DecimalText(n)| <= 3
  {
    assert n < 10 ==> |DecimalText(n)| == 1;
    assert 10 <= n < 100 ==> |DecimalText(n / 10)| == 1;
    if n >= 100 {
      assert |DecimalText(n / 100)| == 1;
      assert n / 10 / 10 == n / 100;
      assert |DecimalText(n / 10)| == 2;
    }
  }

  /** The digits, at the right of four columns. */
  lemma {:induction false} HeaderTextIs(n: nat)
    requires n <= 512
    ensures HeaderText(n) ==
            if n < 10 then [32, 32, 32, 48 + n]
            else if n < 100 then [32, 32, 48 + n / 10, 48 + n % 10]
            else [32, 48 + n / 100, 48 + n / 10 % 10, 48 + n % 10]
  {
    if n >= 100 {
      assert n / 10 / 10 == n / 100 && DecimalText(n / 100) == [48 + n / 100];
      assert DecimalText(n / 10) == [48 + n / 100, 48 + n / 10 % 10];
    } else if n >= 10 {
      assert DecimalText(n / 10) == [48 + n / 10];
    }
  }

  /** Encoding then decoding a length gives it back, space padding included. */
  lemma {:induction false} DecodeInvertsEncode(n: nat)
    requires n <= 512
    ensures |HeaderText(n)| == 4 && DecodedLength(HeaderText(n)) == Some(n)
  {
    TextLength(n);
    var t := DecimalText(n);
    var p := Numeral(seq(HEADER_LENGTH - |t|, _ => SP), [], t, []);
    assert TextOf(p) == HeaderText(n);
    DecodedNumeral(p);
  }

  /** Every header of four bytes is white space, a sign or none, digits and a rest; it
      is accepted exactly if the number so written is from 0 to 512, hence with a minus
      sign only for 0. */
  lemma {:induction false} DecodedNumeral(p: Numeral)
    requires IsNumeral(p) && |TextOf(p)| == 4
    ensures DecodedLength(TextOf(p)) ==
            if p.sign == ['-' as int] then (if Decimal(p.digits) == 0 then Some(0) else None)
            else if Decimal(p.digits) <= 512 then Some(Decimal(p.digits)) else None
  {
    DecodedExactly(TextOf(p));
    ShapeUpToNul(p);
    AtoiOf(p.(rest := UpToNul(p.rest)));
    DigitsBound(p.digits, [1, 10, 100, 1000, 10000][|p.digits|]);
    hide Decimal, UpToNul, Atoi, IsNumeral, DecodedLength, TextOf;
  }

  /** A NUL can only be in the rest. */
  lemma {:induction false} ShapeUpToNul(p: Numeral)
    requires IsNumeral(p)
    ensures var q := p.(rest := UpToNul(p.rest));
            IsNumeral(q) && UpToNul(TextOf(p)) == TextOf(q)
  {
    UpToNulIs(p.rest);
    var a := p.lead + p.sign + p.digits;
    assert 0 !in p.lead && 0 !in p.sign && 0 !in p.digits;
    UpToNulSkips(a, p.rest);
    hide UpToNul;
  }

  lemma {:induction false} FrameOfIsValid(body: bytes)
    requires |body| <= MAX_BODY_LENGTH
    ensures ValidFrame(FrameOf(body)) && FrameOf(body)[4..] == body
  {
    DecodeInvertsEncode(|body|);
    assert FrameOf(body)[..HEADER_LENGTH] == HeaderText(|body|);
  }

  lemma {:induction false} DigitsBound(s: bytes, limit: nat)
    requires Digits(s)
    requires |s| <= 4 && limit == [1, 10, 100, 1000, 10000][|s|]
    ensures 0 <= Decimal(s) < limit
    decreases |s|
  {
    if s != [] {
      DigitsBound(Front(s), [1, 10, 100, 1000, 10000][|s| - 1]);
    }
  }

  lemma {:induction false} TextShortens(s: bytes)
    ensures |SkipSpaces(s)| <= |s| && |UpToNul(s)| <= |s|
    decreases |s|
  {
    if s != [] { TextShortens(s[1..]); }
  }

  lemma {:induction false} AtoiBound(s: bytes)
    requires |s| <= 4
    ensures -10000 < Atoi(s) < 10000
  {
    TextShortens(s);
    var t := SkipSpaces(s);
    var u := if t != [] && (t[0] == '-' as int || t[0] == '+' as int) then t[1..] else t;
    DigitsTaken(u);
    DigitsBound(u[..DigitsLength(u)], [1, 10, 100, 1000, 10000][DigitsLength(u)]);
  }

  /** Whatever the four header bytes are, the length is accepted exactly when the
      number they spell is between 0 and 512; negative ones become huge sizes. */
  lemma {:induction false} DecodedExactly(header: bytes)
    requires |header| == HEADER_LENGTH
    ensures var v := Atoi(UpToNul(header));
            DecodedLength(header) == if 0 <= v <= 512 then Some(v) else None
  {
    TextShortens(header);
    AtoiBound(UpToNul(header));
    hide Atoi, UpToNul;
  }

  // ------------------------------------------------------------- the object

  class Message {
    const data: array<byte>
    var bodyLength: nat

    predicate Valid()
      reads this
    {
      data.Length == HEADER_LENGTH + MAX_BODY_LENGTH && bodyLength <= MAX_BODY_LENGTH
    }

    /** The bytes that are sent: data()[0..length()). */
    function Wire(): bytes
      requires Valid()
      reads this, data
    {
      data[..HEADER_LENGTH + bodyLength]
    }

    constructor ()
      ensures Valid() && fresh(data) && bodyLength == 0
    {
      data := new byte[HEADER_LENGTH + MAX_BODY_LENGTH];
      bodyLength := 0;
    }

    method SetBodyLength(newLength: nat)
      requires Valid()
      modifies this`bodyLength
      ensures Valid() && bodyLength == if newLength > MAX_BODY_LENGTH then MAX_BODY_LENGTH else newLength
    {
      var n := newLength;
      if n > MAX_BODY_LENGTH { n := MAX_BODY_LENGTH; }
      bodyLength := n;
    }

    method DecodeHeader() returns (ok: bool)
      requires Valid()
      modifies this`bodyLength
      ensures Valid() && ok == DecodedLength(data[..HEADER_LENGTH]).Some?
      ensures bodyLength == if ok then DecodedLength(data[..HEADER_LENGTH]).value else 0
    {
      var header := UpToNul(data[..HEADER_LENGTH]);
      var size := ToSize(Atoi(header));
      if size > MAX_BODY_LENGTH {
        bodyLength := 0;
        return false;
      }
      bodyLength := size;
      return true;
    }

    method EncodeHeader()
      requires Valid()
      modifies data
      ensures Valid() && data[..HEADER_LENGTH] == HeaderText(bodyLength)
      ensures data[HEADER_LENGTH..] == old(data[HEADER_LENGTH..])
    {
      DecodeInvertsEncode(bodyLength);
      var header := HeaderText(bodyLength);
      forall i | 0 <= i < HEADER_LENGTH { data[i] := header[i]; }
    }

    /** A read or a memcpy into the message: bytes land at an offset. */
    method Fill(offset: nat, bytes_: bytes)
      requires Valid() && offset + |bytes_| <= data.Length
      modifies data
      ensures data[..] == old(data[..offset]) + bytes_ + old(data[offset + |bytes_|..])
    {
      forall i | 0 <= i < |bytes_| { data[offset + i] := bytes_[i]; }
    }

    /** What the client's main loop does with a line. */
    method Compose(line: bytes)
      requires Valid()
      modifies this`bodyLength, data
      ensures Valid() && Wire() == FrameOf(if |line| <= MAX_BODY_LENGTH then line else line[..MAX_BODY_LENGTH])
      ensures ValidFrame(Wire())
    {
      SetBodyLength(|line|);
      var body := line[..bodyLength];
      Fill(HEADER_LENGTH, body);
      ghost var tail := data[HEADER_LENGTH..];
      assert tail[..bodyLength] == body;
      EncodeHeader();
      assert Wire() == data[..HEADER_LENGTH] + data[HEADER_LENGTH..][..bodyLength];
      FrameOfIsValid(body);
    }
  }
}
