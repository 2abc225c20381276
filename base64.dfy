/**
 * Base64 as PHP's `base64_encode` and strict `base64_decode` compute it: the alphabet of
 * section 4 of RFC 4648 (A-Z, a-z, 0-9, '+', '/') with '=' padding.
 */
module Base64 {
  import opened Common
  import opened Bits

  predicate IsAlphabet(c: char) {
    ('A' <= c <= 'Z') || ('a' <= c <= 'z') || ('0' <= c <= '9') || c == '+' || c == '/'
  }

  /** The character for a 6-bit value. */
  function Alpha(k: nat): (c: char)
    requires k < 64
    ensures IsAlphabet(c)
  {
    if k < 26 then ('A' as int + k) as char
    else if k < 52 then ('a' as int + (k - 26)) as char
    else if k < 62 then ('0' as int + (k - 52)) as char
    else if k == 62 then '+'
    else '/'
  }

  /** The 6-bit value of an alphabet character. */
  function Index(c: char): (k: nat)
    requires IsAlphabet(c)
    ensures k < 64
  {
    if 'A' <= c <= 'Z' then (c - 'A') as int
    else if 'a' <= c <= 'z' then (c - 'a') as int + 26
    else if '0' <= c <= '9' then (c - '0') as int + 52
    else if c == '+' then 62
    else 63
  }

  lemma IndexAlpha(k: nat)
    requires k < 64
    ensures Index(Alpha(k)) == k
  {
  }

  /** The byte a character stands for; characters past 255, which a PHP string cannot hold, read as 0. */
  function ByteOf(c: char): (n: nat)
    ensures n < 256
  {
    if c as int < 256 then c as int else 0
  }

  /** The four 6-bit values of a group of three bytes. */
  function Group(a: nat, b: nat, c: nat): (v: seq<nat>)
    requires a < 256 && b < 256 && c < 256
    ensures |v| == 4 && forall i :: 0 <= i < 4 ==> v[i] < 64
  {
    [a / 4, (a % 4) * 16 + b / 16, (b % 16) * 4 + c / 64, c % 64]
  }

  /** The number of groups of four characters `n` bytes take: one per three bytes, rounded up. */
  function Groups(n: nat): nat {
    if n == 0 then 0 else if n <= 3 then 1 else 1 + Groups(n - 3)
  }

  /** `Groups` is the rounded-up third. */
  lemma {:induction false} GroupsValue(n: nat)
    ensures Groups(n) == (n + 2) / 3
  {
    if n > 3 {
      GroupsValue(n - 3);
    }
  }

  /** The 6-bit values of the unpadded text: four per three bytes, two or three for a last short group. */
  function Sextets(s: string): (v: seq<nat>)
    ensures forall i :: 0 <= i < |v| ==> v[i] < 64
  {
    if |s| == 0 then []
    else if |s| == 1 then Group(ByteOf(s[0]), 0, 0)[..2]
    else if |s| == 2 then Group(ByteOf(s[0]), ByteOf(s[1]), 0)[..3]
    else Group(ByteOf(s[0]), ByteOf(s[1]), ByteOf(s[2])) + Sextets(s[3..])
  }

  /** Three bytes make four 6-bit values, and a short last group two or three. */
  lemma {:induction false} SextetsLength(s: string)
    ensures |Sextets(s)| + |Padding(|s|)| == 4 * Groups(|s|)
  {
    if |s| > 3 {
      SextetsLength(s[3..]);
    }
  }

  /** The alphabet characters of 6-bit values. */
  function Chars(v: seq<nat>): (r: string)
    requires forall i :: 0 <= i < |v| ==> v[i] < 64
    ensures |r| == |v|
    ensures forall i :: 0 <= i < |v| ==> r[i] == Alpha(v[i])
  {
    seq(|v|, i requires 0 <= i < |v| => Alpha(v[i]))
  }

  /** The unpadded text of a byte string. */
  function EncodeBody(s: string): (r: string)
    ensures forall i :: 0 <= i < |r| ==> IsAlphabet(r[i])
  {
    Chars(Sextets(s))
  }

  /** The encoded text has four characters per group of three bytes. */
  lemma EncodeLength(s: string)
    ensures |Encode(s)| == 4 * Groups(|s|)
  {
    SextetsLength(s);
  }

  /** The '=' characters that round the text up to a multiple of four. */
  function Padding(n: nat): string {
    if n % 3 == 1 then "==" else if n % 3 == 2 then "=" else ""
  }

  /** `base64_encode($s)`: alphabet text padded with '=' to a multiple of four characters. */
  function Encode(s: string): (r: string)
    ensures forall i :: 0 <= i < |r| ==> IsAlphabet(r[i]) || r[i] == '='
    ensures IsPaddedText(r) && PadCount(r) == |Padding(|s|)|
  {
    PaddedShape(EncodeBody(s), |s|);
    EncodeBody(s) + Padding(|s|)
  }

  /** The '=' characters, at most two, that the pattern `={0,2}` takes from the end of `t`. */
  function PadCount(t: string): (n: nat)
    ensures n <= 2 && n <= |t|
    ensures forall i :: |t| - n <= i < |t| ==> t[i] == '='
  {
    if |t| >= 2 && t[|t| - 1] == '=' && t[|t| - 2] == '=' then 2
    else if |t| >= 1 && t[|t| - 1] == '=' then 1
    else 0
  }

  /** Text of the shape the footprint pattern captures: alphabet characters, then at most two '='. */
  predicate IsPaddedText(t: string) {
    forall i :: 0 <= i < |t| - PadCount(t) ==> IsAlphabet(t[i])
  }

  /** The 6-bit values of alphabet text. */
  function Values(b: string): (v: seq<nat>)
    requires forall i :: 0 <= i < |b| ==> IsAlphabet(b[i])
    ensures |v| == |b|
    ensures forall i :: 0 <= i < |b| ==> v[i] == Index(b[i]) && v[i] < 64
  {
    seq(|b|, i requires 0 <= i < |b| => Index(b[i]))
  }

  /** The three bytes of a group of four 6-bit values. */
  function Triple(p: nat, q: nat, r: nat, t: nat): (bytes: string)
    requires p < 64 && q < 64 && r < 64 && t < 64
    ensures |bytes| == 3
  {
    [(p * 4 + q / 16) as char, ((q % 16) * 16 + r / 4) as char, ((r % 4) * 64 + t) as char]
  }

  /** The bytes of 6-bit values: a group of four gives three bytes, a last group of two or three gives one or two. */
  function Bytes(v: seq<nat>): (r: string)
    requires forall i :: 0 <= i < |v| ==> v[i] < 64
  {
    if |v| < 2 then ""
    else if |v| == 2 then Triple(v[0], v[1], 0, 0)[..1]
    else if |v| == 3 then Triple(v[0], v[1], v[2], 0)[..2]
    else Triple(v[0], v[1], v[2], v[3]) + Bytes(v[4..])
  }

  /** The bytes of unpadded text. */
  function DecodeBody(b: string): (r: string)
    requires forall i :: 0 <= i < |b| ==> IsAlphabet(b[i])
  {
    Bytes(Values(b))
  }

  /**
   * `base64_decode($t, true)`: it fails on text that is not alphabet characters followed by at
   * most two '=', when the last group holds a single character, or when padding is present but
   * does not complete a group of four; the bits left over in a short group are dropped.
   */
  function Decode(t: string): (r: Option<string>)
    ensures r.None? <==>
      || (exists i :: 0 <= i < |t| - PadCount(t) && !IsAlphabet(t[i]))
      || (|t| - PadCount(t)) % 4 == 1
      || (PadCount(t) > 0 && |t| % 4 != 0)
    ensures r.Some? ==> |r.value| == (|t| - PadCount(t)) * 3 / 4
  {
    var pad := PadCount(t);
    var body := t[..|t| - pad];
    if !IsPaddedText(t) then None
    else if |body| % 4 == 1 then None
    else if pad > 0 && (|body| + pad) % 4 != 0 then None
    else
      BytesLength(Values(body));
      Some(DecodeBody(body))
  }

  /** Four 6-bit values give three bytes, and a last group of two or three gives one or two. */
  lemma {:induction false} BytesLength(v: seq<nat>)
    requires forall i :: 0 <= i < |v| ==> v[i] < 64
    requires |v| % 4 != 1
    ensures |Bytes(v)| == |v| * 3 / 4
  {
    if |v| >= 4 {
      BytesLength(v[4..]);
    }
  }
  /** What `base64_decode` returns is a byte string. */
  lemma DecodeIsByteString(t: string)
    ensures Decode(t).Some? ==> IsByteString(Decode(t).value)
  {
    if Decode(t).Some? {
      BytesAreBytes(Values(t[..|t| - PadCount(t)]));
    }
  }

  /** Every character `Bytes` produces is below 256. */
  lemma {:induction false} BytesAreBytes(v: seq<nat>)
    requires forall i :: 0 <= i < |v| ==> v[i] < 64
    ensures IsByteString(Bytes(v))
  {
    if |v| >= 4 {
      BytesAreBytes(v[4..]);
    }
  }


  /** Decoding one group of four characters gives back the three bytes that made it. */
  lemma GroupRoundTrip(a: int, b: int, c: int)
    requires 0 <= a < 256 && 0 <= b < 256 && 0 <= c < 256
    ensures (a / 4) * 4 + ((a % 4) * 16 + b / 16) / 16 == a
    ensures (((a % 4) * 16 + b / 16) % 16) * 16 + ((b % 16) * 4 + c / 64) / 4 == b
    ensures (((b % 16) * 4 + c / 64) % 4) * 64 + c % 64 == c
  {
    assert ((a % 4) * 16 + b / 16) / 16 == a % 4;
    assert ((a % 4) * 16 + b / 16) % 16 == b / 16;
    assert ((b % 16) * 4 + c / 64) / 4 == b % 16;
    assert ((b % 16) * 4 + c / 64) % 4 == c / 64;
  }

  /** Reading the characters of 6-bit values gives the values back. */
  lemma ValuesChars(v: seq<nat>)
    requires forall i :: 0 <= i < |v| ==> v[i] < 64
    ensures Values(Chars(v)) == v
  {
    forall i | 0 <= i < |v| ensures Values(Chars(v))[i] == v[i] {
      IndexAlpha(v[i]);
    }
  }

  /** Decoding the 6-bit values of a byte string gives the byte string back. */
  lemma {:induction false} BytesSextets(s: string)
    requires IsByteString(s)
    ensures Bytes(Sextets(s)) == s
  {
    if 1 <= |s| <= 2 {
      ShortGroupBytes(s);
    } else if |s| >= 3 {
      FullGroupBytes(s);
      BytesSextets(s[3..]);
      assert s == s[..3] + s[3..];
    }
  }

  /** Reading back the sextets of three bytes gives the three bytes. */
  lemma GroupTriple(a: nat, b: nat, c: nat)
    requires a < 256 && b < 256 && c < 256
    ensures var g := Group(a, b, c);
      Triple(g[0], g[1], g[2], g[3]) == [a as char, b as char, c as char]
  {
    GroupRoundTrip(a, b, c);
  }

  /** One byte, written as two sextets, reads back. */
  lemma OneByte(a: nat)
    requires a < 256
    ensures Bytes(Group(a, 0, 0)[..2]) == [a as char]
  {
    var g := Group(a, 0, 0);
    GroupTriple(a, 0, 0);
    assert Bytes(g[..2]) == Triple(g[0], g[1], 0, 0)[..1];
    assert Triple(g[0], g[1], 0, 0)[0] == Triple(g[0], g[1], g[2], g[3])[0];
  }

  /** Two bytes, written as three sextets, read back. */
  lemma TwoBytes(a: nat, b: nat)
    requires a < 256 && b < 256
    ensures Bytes(Group(a, b, 0)[..3]) == [a as char, b as char]
  {
    var g := Group(a, b, 0);
    GroupTriple(a, b, 0);
    assert Bytes(g[..3]) == Triple(g[0], g[1], g[2], 0)[..2];
    assert Triple(g[0], g[1], g[2], 0)[..2] == Triple(g[0], g[1], g[2], g[3])[..2];
  }

  /** Three bytes, written as four sextets, read back ahead of what follows. */
  lemma ThreeBytes(a: nat, b: nat, c: nat, rest: seq<nat>)
    requires a < 256 && b < 256 && c < 256
    requires forall i :: 0 <= i < |rest| ==> rest[i] < 64
    ensures Bytes(Group(a, b, c) + rest) == [a as char, b as char, c as char] + Bytes(rest)
  {
    var g := Group(a, b, c);
    var v := g + rest;
    assert v[4..] == rest;
    assert v[0] == g[0] && v[1] == g[1] && v[2] == g[2] && v[3] == g[3];
    GroupTriple(a, b, c);
  }

  /** A last group of one or two bytes decodes back. */
  lemma ShortGroupBytes(s: string)
    requires IsByteString(s) && 1 <= |s| <= 2
    ensures Bytes(Sextets(s)) == s
  {
    var a := s[0] as int;
    assert ByteOf(s[0]) == a;
    if |s| == 1 {
      OneByte(a);
      assert [a as char] == s;
    } else {
      var b := s[1] as int;
      assert ByteOf(s[1]) == b;
      TwoBytes(a, b);
      assert [a as char, b as char] == s;
    }
  }

  /** A full group of three bytes decodes back, ahead of what follows. */
  lemma FullGroupBytes(s: string)
    requires IsByteString(s) && |s| >= 3
    ensures Bytes(Sextets(s)) == s[..3] + Bytes(Sextets(s[3..]))
  {
    assert s[..3] == [s[0], s[1], s[2]];
    SextetsCons(s);
    ThreeChars(s[0], s[1], s[2], Sextets(s[3..]));
  }

  /** Three characters below 256, written as four sextets, read back ahead of what follows. */
  lemma ThreeChars(x: char, y: char, z: char, rest: seq<nat>)
    requires x as int < 256 && y as int < 256 && z as int < 256
    requires forall i :: 0 <= i < |rest| ==> rest[i] < 64
    ensures Bytes(Group(ByteOf(x), ByteOf(y), ByteOf(z)) + rest) == [x, y, z] + Bytes(rest)
  {
    assert ByteOf(x) == x as int && ByteOf(y) == y as int && ByteOf(z) == z as int;
    ThreeBytes(x as int, y as int, z as int, rest);
  }

  /** `Sextets` of three bytes and more: one group, then the rest. */
  lemma SextetsCons(s: string)
    requires |s| >= 3
    ensures Sextets(s) == Group(ByteOf(s[0]), ByteOf(s[1]), ByteOf(s[2])) + Sextets(s[3..])
  {
  }

  /** Decoding the unpadded text of a byte string gives the byte string back. */
  lemma BodyRoundTrip(s: string)
    requires IsByteString(s)
    ensures DecodeBody(EncodeBody(s)) == s
  {
    ValuesChars(Sextets(s));
    BytesSextets(s);
  }

  /** Alphabet text followed by the padding for `n` bytes has exactly that padding. */
  lemma PaddedShape(body: string, n: nat)
    requires forall i :: 0 <= i < |body| ==> IsAlphabet(body[i])
    ensures var t := body + Padding(n);
      && PadCount(t) == |Padding(n)|
      && t[..|t| - PadCount(t)] == body
      && IsPaddedText(t)
  {
    var pad := Padding(n);
    var t := body + pad;
    assert |body| == 0 || body[|body| - 1] != '=';
    if |pad| == 0 {
      assert t == body;
    } else if |pad| == 1 {
      assert t[..|t| - 1] == body;
    } else {
      assert t[..|t| - 1] == body + "=";
      assert t[..|t| - 1][..|t| - 2] == body;
    }
  }

  /** The encoded text is alphabet text followed by exactly the padding `Padding` put after the body. */
  lemma EncodeShape(s: string)
    ensures Encode(s)[..|Encode(s)| - PadCount(Encode(s))] == EncodeBody(s)
  {
    PaddedShape(EncodeBody(s), |s|);
  }

  /** `base64_decode(base64_encode($s), true) === $s` for every byte string. */
  lemma RoundTrip(s: string)
    requires IsByteString(s)
    ensures IsPaddedText(Encode(s))
    ensures Decode(Encode(s)) == Some(s)
  {
    var t := Encode(s);
    assert Decode(t) == Some(DecodeBody(EncodeBody(s))) by {
      EncodeShape(s);
      EncodeGroups(s);
      DecodeWhole(t);
    }
    BodyRoundTrip(s);
  }

  /** Padded text whose groups are complete decodes to the bytes of its unpadded part. */
  lemma DecodeWhole(t: string)
    requires IsPaddedText(t)
    requires (|t| - PadCount(t)) % 4 != 1 && (PadCount(t) > 0 ==> |t| % 4 == 0)
    ensures Decode(t) == Some(DecodeBody(t[..|t| - PadCount(t)]))
  {
    var pad := PadCount(t);
    var body := t[..|t| - pad];
    assert |body| == |t| - pad;
    assert |body| % 4 != 1 && !(pad > 0 && (|body| + pad) % 4 != 0);
  }

  /** The body of an encoded text never ends in a single character, and its padding completes the last group. */
  lemma EncodeGroups(s: string)
    ensures (|Encode(s)| - PadCount(Encode(s))) % 4 != 1
    ensures PadCount(Encode(s)) > 0 ==> |Encode(s)| % 4 == 0
  {
    EncodeLength(s);
    GroupArithmetic(|Encode(s)| - PadCount(Encode(s)), PadCount(Encode(s)), Groups(|s|));
  }

  /** Text of `g` whole groups less at most two padding characters never leaves a single character over. */
  lemma GroupArithmetic(n: int, pad: int, g: int)
    requires 0 <= pad <= 2 && n + pad == 4 * g
    ensures n % 4 != 1 && (pad > 0 ==> (n + pad) % 4 == 0)
  {
    if pad == 1 {
      assert n == 4 * (g - 1) + 3;
    } else if pad == 2 {
      assert n == 4 * (g - 1) + 2;
    }
  }
}
