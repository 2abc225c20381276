/** The bit writer of the Huffman codec (src/Compression/Huffman/Binary/BitStreamWriter.php). */
module BinaryWriter {
  import opened Bits

  /** The bits `writeString` writes for a text of digits: PHP's `(bool)` cast makes `'0'` false and any other character true. */
  function StringBits(bitStr: string): (bits: seq<bool>)
    ensures |bits| == |bitStr|
  {
    if bitStr == [] then [] else [bitStr[0] != '0'] + StringBits(bitStr[1..])
  }

  /** Writing `a + b` writes the bits of `a` and then those of `b`. */
  lemma {:induction false} StringBitsAppend(a: string, b: string)
    ensures StringBits(a + b) == StringBits(a) + StringBits(b)
  {
    if a != [] {
      assert (a + b)[0] == a[0] && (a + b)[1..] == a[1..] + b;
      StringBitsAppend(a[1..], b);
    } else {
      assert a + b == b;
    }
  }

  /** The first character of a bit string gives its first bit. */
  lemma StringBitsCons(d: char, code: string)
    ensures StringBits([d] + code) == [d != '0'] + StringBits(code)
  {
    assert ([d] + code)[1..] == code;
  }

  /**
   * The writer's representation of the bits `written`: the whole bytes in `data` hold all
   * but the last `cursor` bits, which sit at the front of `workingByte`, zeros after them.
   */
  ghost predicate WriterState(written: seq<bool>, data: string, workingByte: seq<bool>, cursor: nat) {
    && cursor < 8
    && cursor <= |written|
    && IsByteString(data)
    && Unpack(data) == written[..|written| - cursor]
    && workingByte == written[|written| - cursor..] + Zeros(8 - cursor)
  }

  /** Setting the bit at the cursor of a working byte gives the working byte of one more bit. */
  lemma WorkingByteStep(written: seq<bool>, c: nat, bit: bool)
    requires c < 8 && c <= |written|
    ensures var w := written + [bit];
      (written[|written| - c..] + Zeros(8 - c))[c := bit] == w[|w| - (c + 1)..] + Zeros(8 - (c + 1))
  {
    var w, n := written + [bit], |written|;
    var wb := (written[n - c..] + Zeros(8 - c))[c := bit];
    var nb := w[|w| - (c + 1)..] + Zeros(8 - (c + 1));
    assert |wb| == 8 == |nb|;
    forall i | 0 <= i < 8 ensures wb[i] == nb[i] {
      if i < c {
        assert wb[i] == written[n - c..][i] == w[n - c + i];
      }
    }
  }

  /** A full working byte moves to the completed bytes. */
  lemma FlushStep(written: seq<bool>, data: string, byte: seq<bool>)
    requires |byte| == 8 && 8 <= |written| && byte == written[|written| - 8..]
    requires IsByteString(data) && Unpack(data) == written[..|written| - 8]
    ensures WriterState(written, data + [PackByte(byte)], Zeros(8), 0)
  {
    var d := data + [PackByte(byte)];
    UnpackAppend(data, [PackByte(byte)]);
    assert Unpack([PackByte(byte)]) == UnpackByte(PackByte(byte)) + Unpack([]);
    UnpackPackByte(byte);
    assert written[..|written| - 8] + byte == written[..|written| - 0];
    assert written[|written| - 0..] + Zeros(8) == Zeros(8);
  }

  /** Padding the bits leaves the completed bytes followed by the working byte, if any. */
  lemma PadTail(written: seq<bool>, data: string, workingByte: seq<bool>, cursor: nat)
    requires WriterState(written, data, workingByte, cursor)
    ensures |written| == 8 * |data| + cursor
    ensures PadLength(|written|) == if cursor > 0 then 8 - cursor else 0
    ensures cursor > 0 ==> written + Zeros(PadLength(|written|)) == written[..|written| - cursor] + workingByte
    ensures cursor == 0 ==> written + Zeros(PadLength(|written|)) == written
  {
    UnpackLength(data);
    var n := |written|;
    assert n == 8 * |data| + cursor;
    assert n % 8 == cursor;
    assert written == written[..n - cursor] + written[n - cursor..];
  }

  class BitStreamWriter {
    /** The completed bytes. */
    var data: string
    /** The byte being filled (a BitArray of 8). */
    var workingByte: seq<bool>
    /** The next position in `workingByte`. */
    var cursor: nat
    /** Every bit written so far. */
    ghost var written: seq<bool>

    /** The completed bytes are the packed whole-byte prefix of `written`; the rest sits in `workingByte`. */
    ghost predicate Valid()
      reads this
    {
      WriterState(written, data, workingByte, cursor)
    }

    constructor ()
      ensures Valid() && written == []
      ensures data == "" && cursor == 0
    {
      data := "";
      workingByte := Zeros(8);
      cursor := 0;
      written := [];
    }

    /** Append one bit; a full working byte moves to `data`. */
    method WriteBit(bit: bool)
      requires Valid()
      modifies this
      ensures Valid() && written == old(written) + [bit]
      ensures old(cursor) < 7 ==> data == old(data) && cursor == old(cursor) + 1
      ensures old(cursor) == 7 ==> data == old(data) + [PackByte(old(workingByte)[7 := bit])] && cursor == 0
    {
      WorkingByteStep(written, cursor, bit);
      workingByte := workingByte[cursor := bit];
      cursor := cursor + 1;
      written := written + [bit];
      if cursor > 7 {
        FlushStep(written, data, workingByte);
        data := data + [PackByte(workingByte)];
        workingByte := Zeros(8);
        cursor := 0;
      } else {
        assert written[..|written| - cursor] == old(written)[..|old(written)| - old(cursor)];
      }
    }

    /** Write one bit per character of `bitStr`, in order. */
    method WriteString(bitStr: string)
      requires Valid()
      modifies this
      ensures Valid() && written == old(written) + StringBits(bitStr)
    {
      var i := 0;
      while i < |bitStr|
        invariant 0 <= i <= |bitStr|
        invariant Valid() && written == old(written) + StringBits(bitStr[..i])
      {
        WriteBit(bitStr[i] != '0');
        assert bitStr[..i + 1] == bitStr[..i] + [bitStr[i]];
        StringBitsAppend(bitStr[..i], [bitStr[i]]);
        i := i + 1;
      }
      assert bitStr[..i] == bitStr;
    }

    /** The completed bytes plus the partial working byte, if any; the writer is left as it was. */
    method GetData() returns (r: string)
      requires Valid()
      ensures r == PackPadded(written)
      ensures |r| == |data| + (if cursor > 0 then 1 else 0) && r[..|data|] == data
    {
      r := data;
      if cursor > 0 {
        r := r + [PackByte(workingByte)];
      }
      PadTail(written, data, workingByte, cursor);
      ghost var padded := written + Zeros(PadLength(|written|));
      if cursor > 0 {
        UnpackAppend(data, [PackByte(workingByte)]);
        assert Unpack([PackByte(workingByte)]) == UnpackByte(PackByte(workingByte)) + Unpack([]);
        UnpackPackByte(workingByte);
      }
      assert Unpack(r) == padded;
      PackPaddedFacts(written);
      UnpackInjective(r, PackPadded(written));
    }
  }
}
