// The two readers the parser moves through its input: the `read_bytes`
// closures of the header and resource decoders, whose cursor advances by
// the requested count even past the end, and the opened file, whose `read`
// stops at end of file.
module Cursor {
  import opened Types
  import opened Conversions

  /** The nonlocal `cursor` and the `read_bytes` closure over an in-memory buffer. */
  class ByteCursor {
    const buffer: seq<Byte>
    var cursor: nat

    constructor (buffer: seq<Byte>)
      ensures this.buffer == buffer && cursor == 0
    {
      this.buffer := buffer;
      cursor := 0;
    }

    /** Returns the slice [cursor, cursor + n) clamped to the buffer and moves the
        cursor forward by exactly n, whether or not that many bytes were there. */
    method ReadBytes(n: nat) returns (data: seq<Byte>)
      modifies this
      ensures data == Window(buffer, old(cursor), n)
      ensures cursor == old(cursor) + n
    {
      data := Window(buffer, cursor, n);
      cursor := cursor + n;
    }
  }

  /** An opened binary file: `ff.read(n)` returns at most n bytes and the
      position never passes the end. Opening and closing are left to the caller. */
  class FileStream {
    const data: seq<Byte>
    var pos: nat

    ghost predicate Valid()
      reads this
    {
      pos <= |data|
    }

    constructor Open(data: seq<Byte>)
      ensures Valid() && this.data == data && pos == 0
    {
      this.data := data;
      pos := 0;
    }

    method Read(n: nat) returns (chunk: seq<Byte>)
      requires Valid()
      modifies this
      ensures Valid()
      ensures chunk == Window(data, old(pos), n)
      ensures pos == old(pos) + |chunk|
      ensures |chunk| < n ==> pos == |data|
    {
      chunk := Window(data, pos, n);
      pos := pos + |chunk|;
    }
  }
}
