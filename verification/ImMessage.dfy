/** The message object of im_message.cpp and its wire format. */
module ImMessage {
  import opened Bytes

  const MAGIC: Uint32 := 0xdeadbeaf
  const HEADER_SIZE: nat := 12
  const MAX_INT: nat := 0x7FFF_FFFF
  const FIRST_ID: Uint32 := 10000

  // ------------------------------------------------------------- wire format

  /** A header of three fields and the body. */
  function Frame(id: Uint32, body: seq<Byte>): (f: seq<Byte>)
    requires |body| <= MAX_INT
    ensures |f| == HEADER_SIZE + |body|
  {
    LittleEndian(MAGIC) + LittleEndian(id) + LittleEndian(|body|) + body
  }

  function MagicOf(f: seq<Byte>): Uint32
    requires 4 <= |f|
  {
    ReadUint32(f, 0)
  }

  function IdOf(f: seq<Byte>): Uint32
    requires 8 <= |f|
  {
    ReadUint32(f, 4)
  }

  function LenOf(f: seq<Byte>): Uint32
    requires HEADER_SIZE <= |f|
  {
    ReadUint32(f, 8)
  }

  /** The header and the body that it announces lie inside the buffer. */
  predicate Complete(f: seq<Byte>) {
    HEADER_SIZE <= |f| && HEADER_SIZE + LenOf(f) <= |f|
  }

  function DataOf(f: seq<Byte>): seq<Byte>
    requires Complete(f)
  {
    f[HEADER_SIZE..HEADER_SIZE + LenOf(f)]
  }

  /** The fields of a frame are read back whatever bytes follow it in the buffer:
      getData cuts a longer buffer back to the body. */
  lemma FrameReadsBack(id: Uint32, body: seq<Byte>, rest: seq<Byte>)
    requires |body| <= MAX_INT
    ensures var f := Frame(id, body) + rest;
            && Complete(f) && MagicOf(f) == MAGIC && IdOf(f) == id && LenOf(f) == |body|
            && DataOf(f) == body
  {
    var f := Frame(id, body) + rest;
    assert f[0..4] == LittleEndian(MAGIC);
    assert f[4..8] == LittleEndian(id);
    assert f[8..12] == LittleEndian(|body|);
    ReadsBack(f, 0, MAGIC);
    ReadsBack(f, 4, id);
    ReadsBack(f, 8, |body|);
    assert f[HEADER_SIZE..HEADER_SIZE + |body|] == body;
  }

  /** The header of one message, byte for byte. */
  lemma FrameBytes(body: seq<Byte>)
    requires |body| == 0x0102
    ensures Frame(0x0403_0201, body)
         == [0xAF, 0xBE, 0xAD, 0xDE, 0x01, 0x02, 0x03, 0x04, 0x02, 0x01, 0x00, 0x00] + body
  {
  }

  // ------------------------------------------------------------- the classes

  /** The static counter of message ids. */
  class MessageIds {
    var next: Uint32

    constructor ()
      ensures next == FIRST_ID
    {
      next := FIRST_ID;
    }

    method NewMessageId() returns (id: Uint32)
      modifies this
      ensures id == old(next)
      ensures next == (old(next) + 1) % 0x1_0000_0000
    {
      id := next;
      next := if next == 0xFFFF_FFFF then 0 else next + 1;
    }
  }

  class ImMessage {
    var message: array?<Byte>
    /** Whether the object has been allocated and not yet deleted. */
    ghost var live: bool

    /** The allocated bytes. */
    function Raw(): seq<Byte>
      requires message != null
      reads this, message
    {
      message[..]
    }

    constructor Build(data: seq<Byte>, ids: MessageIds)
      requires |data| <= MAX_INT
      modifies ids
      ensures live && message != null && fresh(message)
      ensures Raw() == Frame(old(ids.next), data)
      ensures ids.next == (old(ids.next) + 1) % 0x1_0000_0000
    {
      var id := ids.NewMessageId();
      var header := LittleEndian(MAGIC) + LittleEndian(id) + LittleEndian(|data|);
      message := new Byte[HEADER_SIZE + |data|](i requires 0 <= i < HEADER_SIZE + |data| =>
        if i < HEADER_SIZE then header[i] else data[i - HEADER_SIZE]);
      live := true;
      new;
      assert message[..] == header + data;
    }

    constructor Blank()
      ensures live && message == null
    {
      message, live := null, true;
    }

    /** The destructor, which frees the buffer too. */
    method Delete()
      requires live
      modifies this
      ensures !live && message == null
    {
      if message != null {
        message := null;
      }
      live := false;
    }

    /** Copies a received buffer; refuses when there already is a message. The source
        reads the magic number of what it copied, so four bytes must be there. */
    method Parse(msg: seq<Byte>) returns (ok: bool)
      requires live && (message == null ==> 4 <= |msg|)
      modifies this
      ensures live
      ensures old(message) != null ==> !ok && message == old(message)
      ensures old(message) == null ==>
                message != null && fresh(message) && Raw() == msg && (ok <==> MagicOf(msg) == MAGIC)
    {
      if message != null {
        return false;
      }
      message := new Byte[|msg|](i requires 0 <= i < |msg| => msg[i]);
      assert message[..] == msg;
      return ReadUint32(message[..], 0) == MAGIC;
    }

    method GetData() returns (data: seq<Byte>)
      requires live && message != null && Complete(Raw())
      ensures data == DataOf(Raw())
    {
      data := message[HEADER_SIZE..HEADER_SIZE + ReadUint32(message[..], 8)];
    }

    /** The size as the source returns it, truncated to 32 bits. */
    method GetMessageSize() returns (size: Uint32)
      requires live && message != null && HEADER_SIZE <= message.Length
      ensures size == (HEADER_SIZE + LenOf(Raw())) % 0x1_0000_0000
    {
      size := (ReadUint32(message[..], 8) + HEADER_SIZE) % 0x1_0000_0000;
    }

    method IsValid() returns (valid: bool)
      requires live && message != null && 4 <= message.Length
      ensures valid <==> MagicOf(Raw()) == MAGIC
    {
      valid := ReadUint32(message[..], 0) == MAGIC;
    }

    method GetMessageId() returns (id: Uint32)
      requires live && message != null && 8 <= message.Length
      ensures id == IdOf(Raw())
    {
      id := ReadUint32(message[..], 4);
    }
  }

  // -------------------------------------------------------------- message ids

  /** The id of the k-th message of a process. */
  function IdAt(k: nat): Uint32 {
    (FIRST_ID + k) % 0x1_0000_0000
  }

  /** NewMessageId hands out IdAt(0), IdAt(1), ...: the counter always holds the next. */
  lemma IdsAdvance(k: nat)
    ensures IdAt(0) == FIRST_ID && (IdAt(k) + 1) % 0x1_0000_0000 == IdAt(k + 1)
  {
  }

  lemma IdsDistinct(k: nat, l: nat)
    requires k < l < k + 0x1_0000_0000
    ensures IdAt(k) != IdAt(l)
  {
  }
}
