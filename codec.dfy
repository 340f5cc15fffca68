/** The payload of a WAL node or a region-peer node: a replicated position or a
    sequence id. ZKUtil.positionToByteArray and ZKUtil.parseWALPositionFrom are not
    part of this model; EncodePosition and DecodePosition stand in for them with a
    decimal text encoding, and the one property the storage relies on, that decoding
    an encoded position gives it back, is proved below. */
module Codec {
  import opened Numerals

  datatype Option<T> = None | Some(value: T)

  type Byte = b: int | 0 <= b < 256

  /** The data of a node. */
  type Payload = seq<Byte>

  /** HConstants.EMPTY_BYTE_ARRAY, and the data of a node created without data. */
  const EMPTY: Payload := []

  const MINUS: Byte := 45
  const ZERO: Byte := 48

  predicate IsDigitByte(b: Byte)
  {
    ZERO <= b < ZERO + 10
  }

  predicate AllDigitBytes(bs: Payload)
  {
    forall i :: 0 <= i < |bs| ==> IsDigitByte(bs[i])
  }

  function DigitBytes(ds: seq<Digit>): (bs: Payload)
    ensures |bs| == |ds| && AllDigitBytes(bs)
  {
    seq(|ds|, i requires 0 <= i < |ds| => (ZERO + ds[i]) as Byte)
  }

  function BytesToDigits(bs: Payload): (ds: seq<Digit>)
    requires AllDigitBytes(bs)
  {
    seq(|bs|, i requires 0 <= i < |bs| && AllDigitBytes(bs) => (bs[i] - ZERO) as Digit)
  }

  /** The stored form of a position or sequence id: its decimal text, with a leading
      '-' when negative (HConstants.NO_SEQNUM is -1). */
  function EncodePosition(n: int): (p: Payload)
    ensures |p| > 0
  {
    if n < 0 then [MINUS] + DigitBytes(Digits(-n)) else DigitBytes(Digits(n))
  }

  /** Decoding a payload: None wherever the decoder throws DeserializationException.
      A zero-length payload (a node created without data) reads as 0. */
  function DecodePosition(p: Payload): (r: Option<int>)
    ensures p == EMPTY ==> r == Some(0)
    ensures r.Some? && r.value < 0 ==> p[0] == MINUS
  {
    if |p| == 0 then Some(0)
    else if |p| > 1 && p[0] == MINUS && AllDigitBytes(p[1..]) then Some(0 - Value(BytesToDigits(p[1..])) as int)
    else if AllDigitBytes(p) then Some(Value(BytesToDigits(p)))
    else None
  }

  lemma DigitsRoundTrip(ds: seq<Digit>)
    ensures BytesToDigits(DigitBytes(ds)) == ds
  {
  }

  /** Every position written is read back unchanged. */
  lemma DecodeEncode(n: int)
    ensures DecodePosition(EncodePosition(n)) == Some(n)
  {
    if n < 0 {
      var p := EncodePosition(n);
      assert p[1..] == DigitBytes(Digits(-n));
      DigitsRoundTrip(Digits(-n));
      ValueOfDigits(-n);
    } else {
      var p := EncodePosition(n);
      assert IsDigitByte(p[0]);
      DigitsRoundTrip(Digits(n));
      ValueOfDigits(n);
    }
  }

  lemma DecodeEncodeAll()
    ensures forall n :: DecodePosition(EncodePosition(n)) == Some(n)
  {
    forall n {
      DecodeEncode(n);
    }
  }
}
