/**
 * Bits grouped into bytes. A PHP string is a byte string; here it is a `string`
 * whose characters stand for bytes. Eight bits make one byte, first bit most
 * significant (the in-byte order of the unseen BitArray class is a modelling choice).
 */
module Bits {

  /** Every character of `s` is a byte value. */
  predicate IsByteString(s: string) {
    forall i :: 0 <= i < |s| ==> s[i] as int < 256
  }

  /** The number whose binary digits, most significant first, are `bits`. */
  function BitsValue(bits: seq<bool>): (n: nat)
    ensures n < Pow2(|bits|)
  {
    if bits == [] then 0
    else 2 * BitsValue(bits[..|bits| - 1]) + (if bits[|bits| - 1] then 1 else 0)
  }

  function Pow2(k: nat): (p: nat)
    ensures p >= 1
  {
    if k == 0 then 1 else 2 * Pow2(k - 1)
  }

  /** The low `k` binary digits of `n`, most significant first. */
  function DigitsOf(n: nat, k: nat): (bits: seq<bool>)
    ensures |bits| == k
  {
    if k == 0 then [] else DigitsOf(n / 2, k - 1) + [n % 2 == 1]
  }

  lemma {:induction false} DigitsOfValue(bits: seq<bool>)
    ensures DigitsOf(BitsValue(bits), |bits|) == bits
  {
    if bits != [] {
      var init, last := bits[..|bits| - 1], bits[|bits| - 1];
      var v, b := BitsValue(init), if last then 1 else 0;
      assert BitsValue(bits) == 2 * v + b;
      assert (2 * v + b) / 2 == v && ((2 * v + b) % 2 == 1) == last;
      DigitsOfValue(init);
      assert init + [last] == bits;
    }
  }

  /** A number below 2^k is read back from its k low digits. */
  lemma {:induction false} ValueOfDigits(n: nat, k: nat)
    requires n < Pow2(k)
    ensures BitsValue(DigitsOf(n, k)) == n
  {
    if k > 0 {
      var d := DigitsOf(n, k);
      assert d[..k - 1] == DigitsOf(n / 2, k - 1) && d[k - 1] == (n % 2 == 1);
      ValueOfDigits(n / 2, k - 1);
    }
  }

  /** Eight bits as one byte. */
  function PackByte(bits: seq<bool>): (c: char)
    requires |bits| == 8
    ensures c as int < 256
  {
    assert Pow2(8) == 256;
    BitsValue(bits) as char
  }

  /** The eight bits of one byte. */
  function UnpackByte(c: char): (bits: seq<bool>)
    ensures |bits| == 8
  {
    DigitsOf(c as int, 8)
  }

  lemma UnpackPackByte(bits: seq<bool>)
    requires |bits| == 8
    ensures UnpackByte(PackByte(bits)) == bits
  {
    DigitsOfValue(bits);
  }

  /** A byte is read back from its eight bits. */
  lemma PackUnpackByte(c: char)
    requires c as int < 256
    ensures PackByte(UnpackByte(c)) == c
  {
    assert Pow2(8) == 256;
    ValueOfDigits(c as int, 8);
  }

  /** A whole number of bytes' worth of bits, packed eight at a time. */
  function Pack(bits: seq<bool>): (s: string)
    requires |bits| % 8 == 0
    decreases |bits|
  {
    if bits == [] then "" else [PackByte(bits[..8])] + Pack(bits[8..])
  }

  /** All bits of a byte string, byte by byte (`BitArray::load`). */
  function Unpack(s: string): (bits: seq<bool>)
  {
    if s == "" then [] else UnpackByte(s[0]) + Unpack(s[1..])
  }

  lemma {:induction false} PackLength(bits: seq<bool>)
    requires |bits| % 8 == 0
    ensures |Pack(bits)| == |bits| / 8 && IsByteString(Pack(bits))
    decreases |bits|
  {
    if bits != [] {
      PackLength(bits[8..]);
    }
  }

  lemma {:induction false} UnpackLength(s: string)
    ensures |Unpack(s)| == 8 * |s|
  {
    if s != "" {
      UnpackLength(s[1..]);
    }
  }

  /** Unpacking what was packed gives back the same bits. */
  lemma {:induction false} UnpackPack(bits: seq<bool>)
    requires |bits| % 8 == 0
    ensures Unpack(Pack(bits)) == bits
    decreases |bits|
  {
    if bits != [] {
      var p := Pack(bits);
      assert p[0] == PackByte(bits[..8]) && p[1..] == Pack(bits[8..]);
      UnpackPackByte(bits[..8]);
      UnpackPack(bits[8..]);
      assert bits[..8] + bits[8..] == bits;
    }
  }

  /** Packing a whole number of bytes and then more bits appends bytes. */
  lemma {:induction false} PackAppend(a: seq<bool>, b: seq<bool>)
    requires |a| % 8 == 0 && |b| % 8 == 0
    ensures Pack(a + b) == Pack(a) + Pack(b)
    decreases |a|
  {
    if a != [] {
      assert (a + b)[..8] == a[..8];
      assert (a + b)[8..] == a[8..] + b;
      PackAppend(a[8..], b);
    } else {
      assert a + b == b;
    }
  }

  /** Packing exactly eight bits is one byte. */
  lemma PackOneByte(bits: seq<bool>)
    requires |bits| == 8
    ensures Pack(bits) == [PackByte(bits)]
  {
    assert bits[..8] == bits;
    assert bits[8..] == [];
  }

  /** `n` false bits. */
  function Zeros(n: nat): (z: seq<bool>)
    ensures |z| == n && forall i :: 0 <= i < n ==> !z[i]
  {
    seq(n, i => false)
  }

  /** How many zero bits complete the last, partial byte of `n` bits. */
  function PadLength(n: nat): (k: nat)
    ensures k < 8 && (n + k) % 8 == 0
    ensures n % 8 == 0 ==> k == 0
  {
    (8 - n % 8) % 8
  }

  /** `bits` packed into bytes, the last byte filled up with zero bits. */
  function PackPadded(bits: seq<bool>): (s: string)
  {
    Pack(bits + Zeros(PadLength(|bits|)))
  }

  /** The padded byte string holds ceil(n/8) bytes and unpacks to the bits plus fewer than 8 zeros. */
  lemma PackPaddedFacts(bits: seq<bool>)
    ensures |PackPadded(bits)| == (|bits| + 7) / 8
    ensures IsByteString(PackPadded(bits))
    ensures Unpack(PackPadded(bits)) == bits + Zeros(PadLength(|bits|))
  {
    var padded := bits + Zeros(PadLength(|bits|));
    PackLength(padded);
    UnpackPack(padded);
  }

  lemma {:induction false} UnpackAppend(a: string, b: string)
    ensures Unpack(a + b) == Unpack(a) + Unpack(b)
  {
    if a != "" {
      assert (a + b)[0] == a[0] && (a + b)[1..] == a[1..] + b;
      UnpackAppend(a[1..], b);
    } else {
      assert a + b == b;
    }
  }

  /** Byte strings with the same bits are the same: unpacking loses nothing. */
  lemma {:induction false} UnpackInjective(a: string, b: string)
    requires IsByteString(a) && IsByteString(b) && Unpack(a) == Unpack(b)
    ensures a == b
  {
    UnpackLength(a);
    UnpackLength(b);
    if a != "" {
      assert Unpack(a)[..8] == UnpackByte(a[0]) && Unpack(a)[8..] == Unpack(a[1..]);
      assert Unpack(b)[..8] == UnpackByte(b[0]) && Unpack(b)[8..] == Unpack(b[1..]);
      PackUnpackByte(a[0]);
      PackUnpackByte(b[0]);
      UnpackInjective(a[1..], b[1..]);
      assert a == [a[0]] + a[1..] && b == [b[0]] + b[1..];
    }
  }
}
