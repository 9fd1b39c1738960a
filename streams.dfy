/**
  The byte streams a connection handler works with: the socket's output stream, which
  only ever grows, and an input stream over a fixed sequence of bytes (the in-memory
  buffer of a generated body or the contents of a static file).
*/
module Streams {

  type Byte = bv8

  /**
    The platform's string-to-bytes conversion (`String.getBytes()` and the encoder of a
    `PrintWriter`). Left abstract: each use takes it as a parameter.
  */
  type Encoding = string -> seq<Byte>

  /** A connection's output stream: everything written to it so far, in order. */
  class OutputStream {
    var written: seq<Byte>

    constructor ()
      ensures written == []
    {
      written := [];
    }

    /** `out.write(buffer, off, len)`: appends `len` bytes of `buffer` from `off`. */
    method Write(buffer: array<Byte>, off: nat, len: nat)
      requires off + len <= buffer.Length
      modifies this
      ensures written == old(written) + buffer[off..off + len]
    {
      written := written + buffer[off..off + len];
    }

    /** Appends already encoded text, as a flushing `println` does. */
    method WriteBytes(bytes: seq<Byte>)
      modifies this
      ensures written == old(written) + bytes
    {
      written := written + bytes;
    }
  }

  /** An input stream over `data`, read from position `pos` on. */
  class ByteSource {
    const data: seq<Byte>
    var pos: nat

    ghost predicate Valid()
      reads this
    {
      pos <= |data|
    }

    /** The bytes not read yet. */
    ghost function Remaining(): seq<Byte>
      reads this
      requires Valid()
    {
      data[pos..]
    }

    constructor (data: seq<Byte>)
      ensures Valid() && this.data == data && pos == 0
    {
      this.data := data;
      pos := 0;
    }

    /**
      `read(buffer)` under the contract of `InputStream`: -1 at the end of the data,
      otherwise at least one and at most `buffer.Length` next bytes, placed at the start
      of `buffer`.
    */
    method Read(buffer: array<Byte>) returns (n: int)
      requires Valid() && buffer.Length > 0
      modifies this, buffer
      ensures Valid()
      ensures n == -1 <==> old(pos) == |data|
      ensures n == -1 ==> pos == old(pos)
      ensures n != -1 ==> 0 < n <= buffer.Length && pos == old(pos) + n
      ensures n != -1 ==> buffer[..n] == data[old(pos)..pos]
    {
      if pos == |data| {
        return -1;
      }
      var start := pos;
      n := if |data| - start < buffer.Length then |data| - start else buffer.Length;
      var i := 0;
      while i < n
        modifies buffer
        invariant 0 <= i <= n
        invariant buffer[..i] == data[start..start + i]
      {
        buffer[i] := data[start + i];
        i := i + 1;
      }
      pos := start + n;
    }
  }
}
