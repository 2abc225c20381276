/** The bit reader of the Huffman codec (src/Compression/Huffman/Binary/BitStreamReader.php). */
module BinaryReader {
  import opened Common
  import opened Bits

  class BitStreamReader {
    /** The loaded buffer, as bits (`BitArray::load($data)`). */
    const dataArray: seq<bool>
    /** Index of the next bit to read. */
    var cursor: nat

    /** The cursor never passes the end of the buffer. */
    ghost predicate Valid()
      reads this
    {
      cursor <= |dataArray|
    }

    /** The bits still to be read, in order. */
    ghost function Remaining(): seq<bool>
      reads this
      requires Valid()
    {
      dataArray[cursor..]
    }

    constructor (data: string)
      ensures Valid() && dataArray == Unpack(data) && cursor == 0
      ensures Remaining() == Unpack(data)
    {
      dataArray := Unpack(data);
      cursor := 0;
    }

    /** The next bit, or `null` (None) once the buffer is exhausted; the cursor moves only when a bit is returned. */
    method ReadBit() returns (bit: Option<bool>)
      requires Valid()
      modifies this
      ensures Valid()
      ensures old(cursor) >= |dataArray| ==> bit == None && cursor == old(cursor)
      ensures old(cursor) < |dataArray| ==> bit == Some(dataArray[old(cursor)]) && cursor == old(cursor) + 1
      ensures old(Remaining()) == [] ==> bit == None && Remaining() == []
      ensures old(Remaining()) != [] ==> bit == Some(old(Remaining())[0]) && Remaining() == old(Remaining())[1..]
    {
      var eof := IsEOF();
      if eof {
        bit := None;
      } else {
        bit := Some(dataArray[cursor]);
        cursor := cursor + 1;
      }
    }

    /** Whether no bit exists at the cursor; a pure query. */
    method IsEOF() returns (eof: bool)
      requires Valid()
      ensures eof <==> Remaining() == []
      ensures eof <==> !(0 <= cursor < |dataArray|)
    {
      eof := !(cursor < |dataArray|);
    }
  }
}
