/** text_to_int and int_to_text: a byte string read as a big-endian unsigned
    integer, and an integer written back as its minimal big-endian bytes.
    UTF-8 encoding and decoding are parameters: encode stands for
    str.encode(), decode for bytes.decode(), None meaning UnicodeDecodeError. */
module Codec {
  import opened Arith
  import opened Wrappers

  type byte = b: int | 0 <= b < 256

  /** int.from_bytes(s, 'big'). */
  function FromBytes(s: seq<byte>): (k: nat)
    ensures k < Pow(256, |s|)
    decreases |s|
  {
    if s == [] then 0
    else
      var init := FromBytes(s[..|s| - 1]);
      ShiftInByte(init, Pow(256, |s| - 1), s[|s| - 1]);
      init * 256 + s[|s| - 1]
  }

  lemma ShiftInByte(a: nat, bound: nat, x: byte)
    requires a < bound
    ensures a * 256 + x < 256 * bound
  {
  }

  /** A byte string in minimal form: empty, or starting with a non-zero byte. */
  predicate NoLeadingZero(s: seq<byte>) {
    s == [] || s[0] != 0
  }

  /** int.bit_length(): the number of binary digits of k, 0 for 0. */
  function BitLength(k: nat): (r: nat)
    ensures k < Pow(2, r)
    ensures k > 0 ==> r > 0 && Pow(2, r - 1) <= k
    ensures k == 0 ==> r == 0
    decreases k
  {
    if k == 0 then 0
    else
      var r := BitLength(k / 2);
      assert Pow(2, r + 1) == 2 * Pow(2, r);
      assert r > 0 ==> Pow(2, r) == 2 * Pow(2, r - 1);
      1 + r
  }

  /** int.to_bytes(len, 'big'): k as exactly len big-endian bytes. Python
      raises OverflowError unless k < 256^len. */
  function ToBytes(k: nat, len: nat): (s: seq<byte>)
    requires k < Pow(256, len)
    ensures |s| == len && FromBytes(s) == k
    decreases len
  {
    if len == 0 then []
    else
      var s := ToBytes(k / 256, len - 1) + [k % 256];
      assert s[..len - 1] == ToBytes(k / 256, len - 1);
      s
  }

  /** The bytes of int_to_text: k as (bit_length + 7) // 8 big-endian bytes. */
  function IntToBytes(k: nat): (s: seq<byte>)
    ensures FromBytes(s) == k && NoLeadingZero(s)
    ensures |s| == (BitLength(k) + 7) / 8
    ensures s == [] <==> k == 0
  {
    var len := (BitLength(k) + 7) / 8;
    MinimalLength(k, len);
    var s := ToBytes(k, len);
    FullLeadingByte(s);
    s
  }

  /** A byte string that reads as at least 256^(L-1), L its length, has no
      leading zero byte. */
  lemma FullLeadingByte(s: seq<byte>)
    requires s != [] ==> Pow(256, |s| - 1) <= FromBytes(s)
    ensures NoLeadingZero(s)
  {
    if s != [] && s[0] == 0 {
      ZeroLeadBound(s);
    }
  }

  /** A byte string with a leading zero byte reads as less than 256^(L-1). */
  lemma ZeroLeadBound(s: seq<byte>)
    requires s != [] && s[0] == 0
    ensures FromBytes(s) < Pow(256, |s| - 1)
  {
    var tail := s[1..];
    assert [0] + tail == s;
    LeadingZeroDropped(tail);
    assert FromBytes(tail) < Pow(256, |tail|);
  }

  /** (bit_length + 7) // 8 bytes hold k, and one byte fewer does not. */
  lemma MinimalLength(k: nat, len: nat)
    requires len == (BitLength(k) + 7) / 8
    ensures k < Pow(256, len)
    ensures k > 0 ==> len > 0 && Pow(256, len - 1) <= k
  {
    MinimalLengthFits(k, len);
    if k > 0 {
      MinimalLengthTight(k, len);
    }
  }

  lemma MinimalLengthFits(k: nat, len: nat)
    requires len == (BitLength(k) + 7) / 8
    ensures k < Pow(256, len)
  {
    var b := BitLength(k);
    RoundUpToBytes(b);
    PowMonotone(2, b, 8 * len);
    PowTwoEight(len);
  }

  lemma MinimalLengthTight(k: nat, len: nat)
    requires len == (BitLength(k) + 7) / 8 && k > 0
    ensures len > 0 && Pow(256, len - 1) <= k
  {
    var b := BitLength(k);
    RoundUpToBytes(b);
    BytesBelowBits(k, b, len);
  }

  lemma BytesBelowBits(k: nat, b: nat, len: nat)
    requires b > 0 && Pow(2, b - 1) <= k && len > 0 && 8 * (len - 1) <= b - 1
    ensures Pow(256, len - 1) <= k
  {
    var j: nat := len - 1;
    PowMonotone(2, 8 * j, b - 1);
    PowTwoEight(j);
  }

  lemma RoundUpToBytes(b: nat)
    ensures b <= 8 * ((b + 7) / 8)
    ensures b > 0 ==> (b + 7) / 8 > 0 && 8 * ((b + 7) / 8 - 1) <= b - 1
  {
  }

  /** Leading zero bytes do not change the integer: int.from_bytes ignores them. */
  lemma {:induction false} LeadingZeroDropped(s: seq<byte>)
    ensures FromBytes([0] + s) == FromBytes(s)
    decreases |s|
  {
    if s != [] {
      var t := [0] + s;
      assert t[..|t| - 1] == [0] + s[..|s| - 1];
      LeadingZeroDropped(s[..|s| - 1]);
    }
  }

  /** A minimal byte string of length L encodes at least 256^(L-1). */
  lemma {:induction false} LeadingByteBound(s: seq<byte>)
    requires s != [] && s[0] != 0
    ensures Pow(256, |s| - 1) <= FromBytes(s)
    decreases |s|
  {
    if |s| > 1 {
      var init := s[..|s| - 1];
      LeadingByteBound(init);
      assert Pow(256, |s| - 1) == 256 * Pow(256, |s| - 2);
    }
  }

  /** Byte strings of one length that read as the same integer are equal. */
  lemma {:induction false} FromBytesInjective(s: seq<byte>, t: seq<byte>)
    requires |s| == |t| && FromBytes(s) == FromBytes(t)
    ensures s == t
    decreases |s|
  {
    if s != [] {
      var k := FromBytes(s);
      ModUnique(256, k, FromBytes(s[..|s| - 1]), s[|s| - 1]);
      ModUnique(256, k, FromBytes(t[..|t| - 1]), t[|t| - 1]);
      FromBytesInjective(s[..|s| - 1], t[..|t| - 1]);
      assert s == s[..|s| - 1] + [s[|s| - 1]];
      assert t == t[..|t| - 1] + [t[|t| - 1]];
    }
  }

  /** Minimal byte strings that read as the same integer have the same length. */
  lemma MinimalLengthUnique(s: seq<byte>, t: seq<byte>)
    requires NoLeadingZero(s) && NoLeadingZero(t) && FromBytes(s) == FromBytes(t)
    ensures |s| == |t|
  {
    if |s| < |t| {
      PowMonotone(256, |s|, |t| - 1);
      LeadingByteBound(t);
    } else if |t| < |s| {
      PowMonotone(256, |t|, |s| - 1);
      LeadingByteBound(s);
    }
  }

  /** Byte side of the round trip: a byte string without a leading zero byte
      survives from_bytes followed by the minimal to_bytes unchanged. */
  lemma FromBytesRoundTrip(s: seq<byte>)
    requires NoLeadingZero(s)
    ensures IntToBytes(FromBytes(s)) == s
  {
    var r := IntToBytes(FromBytes(s));
    MinimalLengthUnique(r, s);
    FromBytesInjective(r, s);
  }

  /** text_to_int: the UTF-8 bytes of the text as a big-endian integer. */
  function TextToInt(text: string, encode: string -> seq<byte>): (k: nat)
    ensures k < Pow(256, |encode(text)|)
    ensures IntToBytes(k) == encode(text) <==> NoLeadingZero(encode(text))
  {
    var k := FromBytes(encode(text));
    if NoLeadingZero(encode(text)) then
      FromBytesRoundTrip(encode(text));
      k
    else
      k
  }

  /** The string int_to_text returns when the bytes are not valid UTF-8. */
  const DecodeErrorText: string :=
    "\U{26A0}\U{FE0F} Erreur : R\U{00E9}sultat d\U{00E9}chiffr\U{00E9} invalide"

  /** The minimal bytes of k are the only byte string without a leading zero
      byte that reads as k. */
  lemma MinimalBytesUnique(k: nat)
    ensures forall b: seq<byte> | NoLeadingZero(b) && FromBytes(b) == k :: b == IntToBytes(k)
  {
    forall b: seq<byte> | NoLeadingZero(b) && FromBytes(b) == k
      ensures b == IntToBytes(k)
    {
      FromBytesRoundTrip(b);
    }
  }

  /** int_to_text: the minimal bytes of k decoded as UTF-8, or the error text
      when decoding fails. Those bytes are the one byte string without a
      leading zero byte that reads as k. */
  function IntToText(k: nat, decode: seq<byte> -> Option<string>): (text: string)
    ensures forall b: seq<byte> | NoLeadingZero(b) && FromBytes(b) == k ::
              decode(b) == Some(text) || (decode(b) == None && text == DecodeErrorText)
  {
    MinimalBytesUnique(k);
    match decode(IntToBytes(k))
    case Some(text) => text
    case None => DecodeErrorText
  }

  /** A text whose encoding decodes back to it and has no leading zero byte
      (no leading NUL character) survives text_to_int then int_to_text. */
  lemma TextRoundTrip(text: string, encode: string -> seq<byte>, decode: seq<byte> -> Option<string>)
    requires decode(encode(text)) == Some(text)
    requires NoLeadingZero(encode(text))
    ensures IntToText(TextToInt(text, encode), decode) == text
  {
    FromBytesRoundTrip(encode(text));
  }
}
