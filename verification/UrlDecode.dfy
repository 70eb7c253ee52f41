/** Percent-decoding of request URIs. `is >> std::hex >> value` on the two
    characters after a '%' is a library call: it is the parameter `hex`. */
module UrlDecode {
  import opened Bytes
  import opened Options

  type Hex = (byte, byte) -> Option<byte>

  const PERCENT: byte := 37
  const PLUS: byte := 43

  /** What the characters at the front of a URI stand for, and how many there are. */
  function Piece(hex: Hex, s: bytes): (p: Option<(byte, nat)>)
    requires s != []
    ensures p.Some? ==> 0 < p.value.1 <= |s|
  {
    if s[0] == PERCENT then
      if |s| < 3 || hex(s[1], s[2]).None? then None else Some((hex(s[1], s[2]).value, 3))
    else Some((if s[0] == PLUS then SP else s[0], 1))
  }

  function Decode(hex: Hex, s: bytes): Option<bytes>
    decreases |s|
  {
    if s == [] then Some([])
    else match Piece(hex, s)
      case None => None
      case Some(p) =>
        match Decode(hex, s[p.1..])
        case None => None
        case Some(rest) => Some([p.0] + rest)
  }

  lemma {:induction false} DecodePiece(hex: Hex, s: bytes)
    requires s != [] && Piece(hex, s).Some?
    ensures var p, rest := Piece(hex, s).value, Decode(hex, s[Piece(hex, s).value.1..]);
            Decode(hex, s) == if rest.None? then None else Some([p.0] + rest.value)
  {
  }

  /** `file_handler::url_decode`: false is the outcome None, true is `out`. */
  method UrlDecode(hex: Hex, input: bytes) returns (ok: bool, out: bytes)
    ensures ok <==> Decode(hex, input).Some?
    ensures ok ==> Decode(hex, input) == Some(out)
  {
    hide Decode;
    out := [];
    var i := 0;
    assert input[0..] == input;
    NothingDecoded(hex);
    while i < |input|
      invariant 0 <= i <= |input|
      invariant Decode(hex, input) == Prepend(out, Decode(hex, input[i..]))
    {
      ghost var todo := input[i..];
      assert forall k :: 0 <= k < |todo| ==> todo[k] == input[i + k];
      if input[i] == PERCENT {
        if i + 3 <= |input| {
          var value := hex(input[i + 1], input[i + 2]);
          if value.None? {
            NoPiece(hex, todo);
            return false, out;
          }
          DecodePiece(hex, todo);
          assert todo[3..] == input[i + 3..];
          PrependMore(out, value.value, Decode(hex, input[i + 3..]));
          out := out + [value.value];
          i := i + 2;
        } else {
          NoPiece(hex, todo);
          return false, out;
        }
      } else {
        DecodePiece(hex, todo);
        assert todo[1..] == input[i + 1..];
        var c := if input[i] == PLUS then SP else input[i];
        PrependMore(out, c, Decode(hex, input[i + 1..]));
        out := out + [c];
      }
      i := i + 1;
    }
    assert input[i..] == [];
    assert out + [] == out;
    return true, out;
  }

  function Prepend(out: bytes, rest: Option<bytes>): Option<bytes> {
    if rest.None? then None else Some(out + rest.value)
  }

  lemma {:induction false} PrependMore(out: bytes, c: byte, rest: Option<bytes>)
    ensures Prepend(out + [c], rest) == Prepend(out, Prepend([c], rest))
  {
    if rest.Some? { Assoc(out, [c], rest.value); }
  }

  lemma {:induction false} NothingDecoded(hex: Hex)
    ensures Decode(hex, []) == Some([])
    ensures forall r: Option<bytes> :: Prepend([], r) == r
  {
    forall r: Option<bytes> ensures Prepend([], r) == r {
      if r.Some? { assert [] + r.value == r.value; }
    }
  }

  lemma {:induction false} NoPiece(hex: Hex, s: bytes)
    requires s != [] && Piece(hex, s).None?
    ensures Decode(hex, s).None?
  {
  }

  /** Decoding is compositional: after a part that decodes, the rest decodes on
      its own, and the results are joined. */
  lemma {:induction false} DecodeConcat(hex: Hex, a: bytes, b: bytes)
    requires Decode(hex, a).Some?
    ensures Decode(hex, a + b) == Prepend(Decode(hex, a).value, Decode(hex, b))
    decreases |a|
  {
    NothingDecoded(hex);
    if a == [] {
      assert a + b == b;
    } else {
      var p := Piece(hex, a).value;
      assert Piece(hex, a + b) == Some(p);
      assert (a + b)[p.1..] == a[p.1..] + b;
      DecodeConcat(hex, a[p.1..], b);
      DecodePiece(hex, a + b);
      DecodePiece(hex, a);
      hide Decode, Piece;
      if Decode(hex, b).Some? {
        Assoc([p.0], Decode(hex, a[p.1..]).value, Decode(hex, b).value);
      }
    }
  }

  /** The escapes reached when reading from the left, as positions of their '%'. */
  function Escapes(s: bytes): nat
    decreases |s|
  {
    if s == [] then 0
    else if s[0] == PERCENT then (if |s| < 3 then 1 else 1 + Escapes(s[3..]))
    else Escapes(s[1..])
  }

  /** Decoding shortens the text by two bytes an escape, and no more. */
  lemma {:induction false} DecodeContracts(hex: Hex, s: bytes)
    requires Decode(hex, s).Some?
    ensures |Decode(hex, s).value| == |s| - 2 * Escapes(s)
    decreases |s|
  {
    if s != [] {
      var p := Piece(hex, s).value;
      DecodePiece(hex, s);
      DecodeContracts(hex, s[p.1..]);
    }
  }

  /** A '%' at k, reached because everything before it decodes, that has no two
      characters after it or two that are not a number. */
  predicate BadEscape(hex: Hex, s: bytes, k: nat) {
    && k < |s| && s[k] == PERCENT && Decode(hex, s[..k]).Some?
    && (|s| < k + 3 || hex(s[k + 1], s[k + 2]).None?)
  }

  /** Decoding fails exactly on a bad escape. */
  lemma {:induction false} DecodeFailsIff(hex: Hex, s: bytes)
    ensures Decode(hex, s).None? <==> exists k: nat :: BadEscape(hex, s, k)
  {
    if Decode(hex, s).None? {
      var k := FirstBadEscape(hex, s);
    }
    forall k: nat | BadEscape(hex, s, k) ensures Decode(hex, s).None? {
      assert s[..k] + s[k..] == s;
      NoPiece(hex, s[k..]);
      DecodeConcat(hex, s[..k], s[k..]);
    }
  }

  lemma {:induction false} FirstBadEscape(hex: Hex, s: bytes) returns (k: nat)
    requires Decode(hex, s).None?
    ensures BadEscape(hex, s, k)
    decreases |s|
  {
    if Piece(hex, s).None? {
      k := 0;
      assert s[..0] == [];
    } else {
      var n := Piece(hex, s).value.1;
      DecodePiece(hex, s);
      var k' := FirstBadEscape(hex, s[n..]);
      k := n + k';
      assert s[..k] == s[..n] + s[n..][..k'];
      assert Piece(hex, s[..n]) == Piece(hex, s) && s[..n][n..] == [];
      DecodePiece(hex, s[..n]);
      DecodeConcat(hex, s[..n], s[n..][..k']);
    }
  }

  // ------------------------------------------------------------- encoding

  predicate HexDigit(c: byte) {
    DigitByte(c) || 'A' as int <= c <= 'F' as int || 'a' as int <= c <= 'f' as int
  }

  function HexValue(c: byte): nat
    requires HexDigit(c)
    ensures HexValue(c) < 16
  {
    if DigitByte(c) then c - 48 else if c < 'a' as int then c - 55 else c - 87
  }

  /** The library contract used: two hexadecimal digits are read as their value. */
  ghost predicate ReadsHexPairs(hex: Hex) {
    forall a: byte, b: byte :: HexDigit(a) && HexDigit(b) ==> hex(a, b) == Some((16 * HexValue(a) + HexValue(b)) as byte)
  }

  /** One way to write a byte: as itself, as a plus (for a space), or as an escape
      with digits in either case. */
  datatype Writing = Raw | Plus | Escape(hi: byte, lo: byte)

  predicate Writes(w: Writing, b: byte) {
    match w
    case Raw => b != PERCENT && b != PLUS
    case Plus => b == SP
    case Escape(hi, lo) => HexDigit(hi) && HexDigit(lo) && 16 * HexValue(hi) + HexValue(lo) == b
  }

  function Written(w: Writing, b: byte): bytes {
    match w
    case Raw => [b]
    case Plus => [PLUS]
    case Escape(hi, lo) => [PERCENT, hi, lo]
  }

  predicate Encodes(ws: seq<Writing>, p: bytes) {
    |ws| == |p| && forall i :: 0 <= i < |p| ==> Writes(ws[i], p[i])
  }

  function Encode(ws: seq<Writing>, p: bytes): bytes
    requires |ws| == |p|
  {
    if p == [] then [] else Written(ws[0], p[0]) + Encode(ws[1..], p[1..])
  }

  /** Every percent-encoding of a byte string decodes to it. */
  lemma {:induction false} DecodeInvertsEncode(hex: Hex, ws: seq<Writing>, p: bytes)
    requires ReadsHexPairs(hex) && Encodes(ws, p)
    ensures Decode(hex, Encode(ws, p)) == Some(p)
    decreases |p|
  {
    if p != [] {
      DecodeInvertsEncode(hex, ws[1..], p[1..]);
      WrittenDecodes(hex, ws[0], p[0]);
      hide Decode;
      DecodeConcat(hex, Written(ws[0], p[0]), Encode(ws[1..], p[1..]));
      assert [p[0]] + p[1..] == p;
    }
  }

  lemma {:induction false} WrittenDecodes(hex: Hex, w: Writing, b: byte)
    requires ReadsHexPairs(hex) && Writes(w, b)
    ensures Decode(hex, Written(w, b)) == Some([b])
  {
    var s := Written(w, b);
    DecodePiece(hex, s);
    assert s[Piece(hex, s).value.1..] == [];
    assert [b] + [] == [b];
  }
}
