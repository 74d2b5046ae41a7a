/** eval_valid_utf8 (harnesses/eval.c) against the encoding of RFC 3629. */
module Utf8 {

  type Byte = b: int | 0 <= b < 256

  type Bytes = seq<Byte>

  /** Unicode scalar values: code points that are no surrogates. */
  predicate IsScalar(cp: int) { 0 <= cp <= 0x10FFFF && !(0xD800 <= cp <= 0xDFFF) }

  type Scalar = cp: int | IsScalar(cp)

  /** (b & 0xc0) == 0x80: the two high bits are 10. */
  predicate IsCont(b: Byte) { b / 64 == 2 }

  /** The low bits of an octet, as a number below m. */
  function Low(b: Byte, m: int): (n: int)
    requires m > 0
    ensures 0 <= n < m
  {
    b % m
  }

  /** 10xxxxxx carrying the low six bits of n. */
  function Cont(n: nat): (b: Byte)
    ensures IsCont(b) && Low(b, 64) == n % 64
  {
    0x80 + n % 64
  }

  // ---------- the encoding of section 3

  /** The octets of one scalar value, the fewest its size class allows. */
  function Encode(cp: Scalar): (bs: Bytes)
    ensures 1 <= |bs| <= 4
  {
    assert IsScalar(cp);
    var n: int := cp;
    if n < 0x80 then [n]
    else if n < 0x800 then [0xC0 + n / 64, Cont(n)]
    else if n < 0x10000 then [0xE0 + n / 64 / 64, Cont(n / 64), Cont(n)]
    else [0xF0 + n / 64 / 64 / 64, Cont(n / 64 / 64), Cont(n / 64), Cont(n)]
  }

  function EncodeAll(cps: seq<Scalar>): Bytes {
    if cps == [] then [] else Encode(cps[0]) + EncodeAll(cps[1..])
  }

  /** A byte string is UTF-8 when some sequence of scalar values encodes to it. */
  ghost predicate IsUtf8(data: Bytes) { exists cps: seq<Scalar> :: EncodeAll(cps) == data }

  // ---------- decoding

  /** The length a lead octet announces; 0 for one that leads nothing. */
  function Length(lead: Byte): nat {
    if lead < 0x80 then 1
    else if 0xC2 <= lead <= 0xDF then 2
    else if 0xE0 <= lead <= 0xEF then 3
    else if 0xF0 <= lead <= 0xF4 then 4
    else 0
  }

  /** The bits a sequence of octets carries. */
  function Value(bs: Bytes): int
    requires 1 <= |bs| <= 4
  {
    if |bs| == 1 then bs[0]
    else if |bs| == 2 then Low(bs[0], 32) * 64 + Low(bs[1], 64)
    else if |bs| == 3 then (Low(bs[0], 16) * 64 + Low(bs[1], 64)) * 64 + Low(bs[2], 64)
    else ((Low(bs[0], 8) * 64 + Low(bs[1], 64)) * 64 + Low(bs[2], 64)) * 64 + Low(bs[3], 64)
  }

  predicate SecondInRange(lead: Byte, b: Byte) {
    && (lead == 0xE0 ==> b >= 0xA0)
    && (lead == 0xED ==> b < 0xA0)
    && (lead == 0xF0 ==> b >= 0x90)
    && (lead == 0xF4 ==> b < 0x90)
  }

  /** Sequences the validator accepts: the right length, continuation octets,
      and the second octet in range for the leads that restrict it. */
  predicate WellFormed(bs: Bytes) {
    && 1 <= |bs| == Length(bs[0])
    && (forall i :: 1 <= i < |bs| ==> IsCont(bs[i]))
    && (|bs| >= 2 ==> SecondInRange(bs[0], bs[1]))
  }

  lemma EncodeThree(cp: Scalar)
    requires 0x800 <= cp < 0x10000
    ensures WellFormed(Encode(cp)) && Value(Encode(cp)) == cp
  {
    assert IsScalar(cp);
    var n: int := cp;
    assert Low(Encode(cp)[0], 16) == n / 64 / 64;
  }

  lemma EncodeFour(cp: Scalar)
    requires 0x10000 <= cp
    ensures WellFormed(Encode(cp)) && Value(Encode(cp)) == cp
  {
    assert IsScalar(cp);
    var n: int := cp;
    assert Low(Encode(cp)[0], 8) == n / 64 / 64 / 64;
  }

  /** Encoding a scalar value gives a well-formed sequence with that value... */
  lemma EncodeDecodes(cp: Scalar)
    ensures WellFormed(Encode(cp)) && Value(Encode(cp)) == cp
  {
    if 0x10000 <= cp {
      EncodeFour(cp);
    } else if 0x800 <= cp {
      EncodeThree(cp);
    }
  }

  lemma DecodeThree(bs: Bytes)
    requires WellFormed(bs) && |bs| == 3
    ensures IsScalar(Value(bs)) && Encode(Value(bs)) == bs
  {
    var v := Value(bs);
    assert v / 64 == Low(bs[0], 16) * 64 + Low(bs[1], 64);
    assert v / 64 / 64 == Low(bs[0], 16);
  }

  lemma DecodeFour(bs: Bytes)
    requires WellFormed(bs) && |bs| == 4
    ensures IsScalar(Value(bs)) && Encode(Value(bs)) == bs
  {
    var v := Value(bs);
    assert v / 64 == (Low(bs[0], 8) * 64 + Low(bs[1], 64)) * 64 + Low(bs[2], 64);
    assert v / 64 / 64 == Low(bs[0], 8) * 64 + Low(bs[1], 64);
    assert v / 64 / 64 / 64 == Low(bs[0], 8);
  }

  /** ... and every well-formed sequence is the encoding of its value. */
  lemma DecodeEncodes(bs: Bytes)
    requires WellFormed(bs)
    ensures IsScalar(Value(bs)) && Encode(Value(bs)) == bs
  {
    if |bs| == 4 {
      DecodeFour(bs);
    } else if |bs| == 3 {
      DecodeThree(bs);
    } else if |bs| == 2 {
      assert Value(bs) / 64 == Low(bs[0], 32);
    }
  }

  /** No encoding is a proper prefix of another, so the first octets of a
      string decide where its first character ends. */
  lemma EncodeIsPrefixFree(a: Scalar, b: Scalar, x: Bytes, y: Bytes)
    requires Encode(a) + x == Encode(b) + y
    ensures a == b && x == y
  {
    EncodeDecodes(a);
    EncodeDecodes(b);
    assert (Encode(a) + x)[0] == Encode(a)[0] && (Encode(b) + y)[0] == Encode(b)[0];
    assert |Encode(a)| == |Encode(b)|;
    assert Encode(a) == (Encode(a) + x)[..|Encode(a)|];
    assert Encode(b) == (Encode(b) + y)[..|Encode(b)|];
    assert x == (Encode(a) + x)[|Encode(a)|..];
  }

  /** A string is the encoding of at most one sequence of scalar values. */
  lemma {:induction false} EncodingIsUnique(a: seq<Scalar>, b: seq<Scalar>)
    requires EncodeAll(a) == EncodeAll(b)
    ensures a == b
  {
    if a != [] && b != [] {
      EncodeIsPrefixFree(a[0], b[0], EncodeAll(a[1..]), EncodeAll(b[1..]));
      EncodingIsUnique(a[1..], b[1..]);
    }
  }

  // ---------- decoding whole strings

  datatype Decoded = Invalid | Decoded(cps: seq<Scalar>)

  /** Decode character by character, giving up at the first octet that does
      not start a well-formed sequence. */
  function Decode(data: Bytes): Decoded {
    if data == [] then Decoded([])
    else
      var n := Length(data[0]);
      if 1 <= n <= |data| && WellFormed(data[..n]) then
        DecodeEncodes(data[..n]);
        match Decode(data[n..])
        case Invalid => Invalid
        case Decoded(cps) => Decoded([Value(data[..n])] + cps)
      else Invalid
  }

  /** Decoding undoes encoding. */
  lemma {:induction false} DecodeOfEncode(cps: seq<Scalar>)
    ensures Decode(EncodeAll(cps)) == Decoded(cps)
  {
    hide Encode, Value;
    if cps != [] {
      var bs := Encode(cps[0]);
      EncodeDecodes(cps[0]);
      var data := EncodeAll(cps);
      assert data[..|bs|] == bs && data[|bs|..] == EncodeAll(cps[1..]);
      DecodeOfEncode(cps[1..]);
    }
  }

  lemma EncodeCons(cp: Scalar, rest: seq<Scalar>)
    ensures EncodeAll([cp] + rest) == Encode(cp) + EncodeAll(rest)
  {
    assert ([cp] + rest)[1..] == rest;
  }

  lemma DecodeFirst(data: Bytes)
    requires data != [] && Decode(data).Decoded?
    ensures var n := Length(data[0]);
      && 1 <= n <= |data| && WellFormed(data[..n]) && Decode(data[n..]).Decoded?
      && IsScalar(Value(data[..n]))
      && Decode(data).cps == [Value(data[..n])] + Decode(data[n..]).cps
  {
    DecodeEncodes(data[..Length(data[0])]);
  }

  /** Encoding undoes decoding on every string that decodes. */
  lemma {:induction false} EncodeOfDecode(data: Bytes)
    requires Decode(data).Decoded?
    ensures EncodeAll(Decode(data).cps) == data
  {
    hide Encode, Value, WellFormed;
    if data != [] {
      DecodeFirst(data);
      var n := Length(data[0]);
      DecodeEncodes(data[..n]);
      EncodeOfDecode(data[n..]);
      EncodeCons(Value(data[..n]), Decode(data[n..]).cps);
      assert data[..n] + data[n..] == data;
    }
  }

  lemma Utf8IsDecodable(data: Bytes)
    ensures IsUtf8(data) <==> Decode(data).Decoded?
  {
    if IsUtf8(data) {
      var cps: seq<Scalar> :| EncodeAll(cps) == data;
      DecodeOfEncode(cps);
    }
    if Decode(data).Decoded? {
      EncodeOfDecode(data);
    }
  }

  // ---------- the validator

  /** A well-formed sequence of n octets stands at i. */
  predicate StandsAt(data: Bytes, i: nat, n: nat)
    requires i < |data|
  {
    && 1 <= n == Length(data[i]) && i + n <= |data|
    && (n >= 2 ==> IsCont(data[i + 1]) && SecondInRange(data[i], data[i + 1]))
    && (n >= 3 ==> IsCont(data[i + 2]))
    && (n >= 4 ==> IsCont(data[i + 3]))
  }

  lemma StandsWellFormed(data: Bytes, i: nat, n: nat)
    requires i < |data|
    ensures StandsAt(data, i, n) <==> n >= 1 && i + n <= |data| && WellFormed(data[i..i + n])
  {
    if n >= 1 && i + n <= |data| {
      var bs := data[i..i + n];
      assert forall k :: 0 <= k < n ==> bs[k] == data[i + k];
      if StandsAt(data, i, n) {
        assert WellFormed(bs);
      }
      if WellFormed(bs) {
        assert n >= 2 ==> IsCont(bs[1]);
        assert n >= 3 ==> IsCont(bs[2]);
        assert n >= 4 ==> IsCont(bs[3]);
      }
    }
  }

  /** Stepping over the character at i, or stopping there. */
  lemma DecodeAt(data: Bytes, i: nat)
    requires i < |data|
    ensures var n := Length(data[i]);
      Decode(data[i..]).Decoded? <==> StandsAt(data, i, n) && Decode(data[i + n..]).Decoded?
  {
    var n := Length(data[i]);
    StandsWellFormed(data, i, n);
    if i + n <= |data| {
      assert data[i..][..n] == data[i..i + n];
      assert data[i..][n..] == data[i + n..];
    }
  }

  lemma DecodeOfNone()
    ensures Decode([]).Decoded?
  {
  }

  /** The validator accepts exactly the byte strings that are UTF-8. */
  method ValidUtf8(data: array<Byte>) returns (valid: bool)
    ensures valid <==> IsUtf8(data[..])
  {
    hide Decode, IsUtf8;
    ghost var s := data[..];
    Utf8IsDecodable(s);
    DecodeOfNone();
    var size := data.Length;
    var i := 0;
    assert s[0..] == s;
    while i < size
      invariant i <= size
      invariant Decode(s).Decoded? <==> Decode(s[i..]).Decoded?
    {
      DecodeAt(s, i);
      var c := data[i];
      i := i + 1;
      if c < 0x80 {
        continue;
      }
      if 0xC2 <= c <= 0xDF {
        if i >= size || !IsCont(data[i]) {
          return false;
        }
        i := i + 1;
        continue;
      }
      if 0xE0 <= c <= 0xEF {
        if i + 1 >= size || !IsCont(data[i]) || !IsCont(data[i + 1])
           || (c == 0xE0 && data[i] < 0xA0) || (c == 0xED && data[i] >= 0xA0) {
          return false;
        }
        i := i + 2;
        continue;
      }
      if 0xF0 <= c <= 0xF4 {
        if i + 2 >= size || !IsCont(data[i]) || !IsCont(data[i + 1]) || !IsCont(data[i + 2])
           || (c == 0xF0 && data[i] < 0x90) || (c == 0xF4 && data[i] >= 0x90) {
          return false;
        }
        i := i + 3;
        continue;
      }
      return false;
    }
    assert s[i..] == [];
    return true;
  }
}
