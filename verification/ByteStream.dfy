/** The byte streams the host reads from and writes to. */
module ByteStream {
  import opened Bytes

  /** `read_exact`: the bytes asked for, the end of the stream, or another I/O error. */
  datatype Read = Data(bytes: bytes) | UnexpectedEof | Fault

  /** A reader over all the bytes that will ever arrive; when they run out it reports the end, or a fault. */
  class ByteReader {
    var data: bytes
    const faulty: bool

    constructor (data: bytes, faulty: bool)
      ensures this.data == data && this.faulty == faulty
    {
      this.data, this.faulty := data, faulty;
    }

    method ReadExact(n: nat) returns (r: Read)
      modifies this
      ensures n <= |old(data)| ==> r == Data(old(data)[..n]) && data == old(data)[n..]
      ensures n > |old(data)| ==> r == (if faulty then Fault else UnexpectedEof) && data == []
    {
      if n <= |data| {
        r := Data(data[..n]);
        data := data[n..];
      } else {
        r := if faulty then Fault else UnexpectedEof;
        data := [];
      }
    }
  }

  /** A writer that collects what was written, and fails once `room` bytes are; its flush may fail too. */
  class ByteWriter {
    var data: bytes
    const room: nat
    const flushes: bool

    ghost predicate Valid()
      reads this
    {
      |data| <= room
    }

    constructor (room: nat, flushes: bool)
      ensures Valid() && data == [] && this.room == room && this.flushes == flushes
    {
      data, this.room, this.flushes := [], room, flushes;
    }

    method WriteAll(s: bytes) returns (ok: bool)
      requires Valid()
      modifies this
      ensures Valid() && ok == (|old(data) + s| <= room)
      ensures data == if ok then old(data) + s else (old(data) + s)[..room]
    {
      ok := |data + s| <= room;
      data := if ok then data + s else (data + s)[..room];
    }

    method Flush() returns (ok: bool)
      ensures ok == flushes
    {
      ok := flushes;
    }
  }
}
