/**
 * TestTransportLayer: the lossless byte FIFO the tests run PacketManager over.
 * Its std::vector<uint8_t> is the field `buffer`; read erases from the front,
 * write pushes onto the back. A C pointer `data` into a caller's buffer is the
 * pair (array, offset).
 */
module Transport {
  import opened Wire

  class TestTransportLayer {
    var buffer: seq<bv8>

    constructor ()
      ensures buffer == []
    {
      buffer := [];
    }

    /** available(): some byte is waiting. */
    method Available() returns (b: bool)
      ensures b <==> buffer != []
    {
      b := buffer != [];
    }

    /**
     * read(data + off, len): moves min(len, |buffer|) bytes from the front of
     * the buffer into data[off..], in order, and returns how many it moved.
     */
    method Read(data: array<bv8>, off: nat, len: nat) returns (r: int)
      requires off + len <= data.Length
      modifies this, data
      ensures r == Min(len, |old(buffer)|)
      ensures buffer == old(buffer)[r..]
      ensures data[..] == old(data[..off]) + old(buffer)[..r] + old(data[off + r..])
    {
      r := 0;
      var i := 0;
      while i < len
        invariant 0 <= i <= len && i <= |old(buffer)| && r == i
        invariant buffer == old(buffer)[i..]
        invariant data[..] == old(data[..off]) + old(buffer)[..i] + old(data[off + i..])
      {
        var more := Available();
        if !more {
          break;
        }
        data[off + i] := buffer[0];
        buffer := buffer[1..];
        r := r + 1;
        i := i + 1;
      }
    }

    /** write(data, len): appends data[..len] to the back of the buffer, returns len. */
    method Write(data: array<bv8>, len: nat) returns (r: nat)
      requires len <= data.Length
      modifies this
      ensures buffer == old(buffer) + data[..len]
      ensures r == len
    {
      r := 0;
      var i := 0;
      while i < len
        invariant 0 <= i <= len && r == i
        invariant buffer == old(buffer) + data[..i]
      {
        buffer := buffer + [data[i]];
        r := r + 1;
        i := i + 1;
      }
    }
  }

  /**
   * Lossless FIFO: bytes written into an empty transport and then read back
   * with a large enough request come out identical and in order.
   */
  method WriteThenRead(src: array<bv8>, len: nat) returns (received: seq<bv8>)
    requires len <= src.Length
    ensures received == src[..len]
  {
    var t := new TestTransportLayer();
    var written := t.Write(src, len);
    var dst := new bv8[len];
    var got := t.Read(dst, 0, len);
    received := dst[..got];
  }
}
