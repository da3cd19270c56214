/** Messages of the netboot protocol and their datagram encoding (src/netboot.h). */
module NbMessage {
  import opened Bytes

  const NB_MAGIC: uint32 := 0xAA774217

  const NB_SERVER_PORT: uint16 := 33330

  const NB_COMMAND: uint32 := 1
  const NB_SEND_FILE: uint32 := 2
  const NB_DATA: uint32 := 3
  const NB_BOOT: uint32 := 4

  const NB_ACK: uint32 := 0

  const NB_ERROR_BAD_CMD: uint32 := 0x80000001
  const NB_ERROR_TOO_LARGE: uint32 := 0x80000003
  const NB_ERROR_BAD_FILE: uint32 := 0x80000004

  /** sizeof(nbmsg) */
  const HEADER_LEN: nat := 16

  datatype Msg = Msg(magic: uint32, cookie: uint32, cmd: uint32, arg: uint32, data: seq<byte>)

  /** What a receiver sees: a datagram too short for the header, or a message. */
  datatype Datagram = Runt | Full(msg: Msg)

  function Encode(m: Msg): (b: seq<byte>)
    ensures |b| == HEADER_LEN + |m.data|
  {
    LittleEndian(m.magic, 4) + LittleEndian(m.cookie, 4)
    + LittleEndian(m.cmd, 4) + LittleEndian(m.arg, 4) + m.data
  }

  lemma WordBound(b: seq<byte>)
    requires |b| == 4
    ensures FromLittleEndian(b) < TWO32
  {
    FourBytes(b);
  }

  function Word(b: seq<byte>, off: nat): uint32
    requires off + 4 <= |b|
  {
    WordBound(b[off..off + 4]);
    FromLittleEndian(b[off..off + 4])
  }

  function Parse(b: seq<byte>): Datagram {
    if |b| < HEADER_LEN then Runt
    else Full(Msg(Word(b, 0), Word(b, 4), Word(b, 8), Word(b, 12), b[HEADER_LEN..]))
  }

  /** A datagram written by either side is read back as the message it was made from. */
  lemma ParseEncode(m: Msg)
    ensures Parse(Encode(m)) == Full(m)
  {
    var b := Encode(m);
    FiveParts(b, LittleEndian(m.magic, 4), LittleEndian(m.cookie, 4),
              LittleEndian(m.cmd, 4), LittleEndian(m.arg, 4), m.data);
    WordRead(b, 0, m.magic);
    WordRead(b, 4, m.cookie);
    WordRead(b, 8, m.cmd);
    WordRead(b, 12, m.arg);
  }

  /** What the datagram holds at each byte: four little-endian words in this order, then the data. */
  lemma WireFormat(m: Msg)
    ensures var b := Encode(m);
            && m.magic == Quad(b[0], b[1], b[2], b[3])
            && m.cookie == Quad(b[4], b[5], b[6], b[7])
            && m.cmd == Quad(b[8], b[9], b[10], b[11])
            && m.arg == Quad(b[12], b[13], b[14], b[15])
            && b[16..] == m.data
  {
    var b := Encode(m);
    ParseEncode(m);
    FourBytes(b[0..4]);
    FourBytes(b[4..8]);
    FourBytes(b[8..12]);
    FourBytes(b[12..16]);
  }

  /** A word has a value exactly if its bytes are those of the value. */
  lemma WordIs(b: seq<byte>, off: nat, v: uint32)
    requires off + 4 <= |b|
    ensures Word(b, off) == v <==> b[off..off + 4] == LittleEndian(v, 4)
  {
    Stored32(v);
    LittleEndianInverse(b[off..off + 4]);
  }

  lemma MagicBytes()
    ensures LittleEndian(NB_MAGIC, 4) == [0x17, 0x42, 0x77, 0xAA] && LittleEndian(NB_ACK, 4) == [0, 0, 0, 0]
  {
    QuadBytes(0x17, 0x42, 0x77, 0xAA);
    QuadBytes(0, 0, 0, 0);
  }

  lemma FiveParts(b: seq<byte>, w0: seq<byte>, w1: seq<byte>, w2: seq<byte>, w3: seq<byte>, data: seq<byte>)
    requires b == w0 + w1 + w2 + w3 + data && |w0| == |w1| == |w2| == |w3| == 4
    ensures b[0..4] == w0 && b[4..8] == w1 && b[8..12] == w2 && b[12..16] == w3 && b[16..] == data
  {
  }

  lemma WordRead(b: seq<byte>, off: nat, v: uint32)
    requires off + 4 <= |b| && b[off..off + 4] == LittleEndian(v, 4)
    ensures Word(b, off) == v
  {
    Stored32(v);
  }
}
