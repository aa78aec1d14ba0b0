/**
 The fixed buffer between a socket and a message: octets are committed at `write` and consumed at
 `read`, and both cursors go back to the front once everything has been consumed.
 */
module StaticBuffer {
  import opened Bytes

  // The cursors and the readable octets, as a value.
  datatype View = View(read: nat, readable: seq<byte>) {
    function Writable(capacity: nat): int {
      capacity - read - |readable|
    }

    function Commit(bytes: seq<byte>): View {
      View(read, readable + bytes)
    }

    function Consume(size: nat): View {
      if size >= |readable| then View(0, []) else View(read + size, readable[size..])
    }
  }

  const EMPTY := View(0, [])

  class StaticBuffer {
    const buffer: array<byte>
    var read: nat
    var write: nat

    constructor (capacity: nat)
      ensures Valid() && fresh(buffer) && buffer.Length == capacity && Contents() == EMPTY
    {
      buffer := new byte[capacity];
      read, write := 0, 0;
    }

    predicate Valid()
      reads this
    {
      read <= write <= buffer.Length
    }

    function Contents(): View
      requires Valid()
      reads this, buffer
    {
      View(read, buffer[read..write])
    }

    function Size(): nat
      requires Valid()
      reads this
    {
      write - read
    }

    predicate Empty()
      requires Valid()
      reads this
    {
      Size() == 0
    }

    function WritableSize(): nat
      requires Valid()
      reads this
    {
      buffer.Length - write
    }

    function ReadableSpan(): seq<byte>
      requires Valid()
      reads this, buffer
    {
      buffer[read..write]
    }

    // What the owner of the writable span does before committing: fill the front of it.
    method Fill(bytes: seq<byte>)
      requires Valid() && |bytes| <= WritableSize()
      modifies buffer
      ensures Valid() && buffer[write..write + |bytes|] == bytes && Contents() == old(Contents())
    {
      ghost var front := buffer[..write];
      Write(buffer, write, bytes);
      assert buffer[..write] == front;
      assert buffer[read..write] == front[read..];
    }

    method Commit(size: nat)
      requires Valid()
      modifies this`write
      ensures Valid() && read == old(read)
      ensures write == Min(old(write) + size, buffer.Length)
      ensures size <= old(WritableSize()) ==> Contents() == old(Contents()).Commit(old(buffer[write..write + size]))
    {
      write := write + size;
      if write > buffer.Length { write := buffer.Length; }
    }

    method Consume(size: nat)
      requires Valid()
      modifies this`read, this`write
      ensures Valid() && Contents() == old(Contents()).Consume(size)
    {
      read := read + size;
      if read >= write {
        read := 0;
        write := 0;
      }
    }
  }
}
