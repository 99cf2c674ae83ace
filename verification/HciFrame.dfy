/** Frames of the Linux HCI monitor channel (src/bluetooth_traffic.c): a little-endian record
    header, then a data packet whose own header says how many device bytes follow. */
module HciFrame {
  import opened Basics

  type Byte = n: nat | n < 256
  type Word = n: nat | n < 65536

  datatype Packet = Packet(controller: Word, handle: nat, payload: nat, receive: bool)

  const HEADER_SIZE: nat := 6
  const ACL_TX: nat := 4
  const ACL_RX: nat := 5
  const SCO_TX: nat := 6
  const SCO_RX: nat := 7
  const ISO_TX: nat := 18
  const ISO_RX: nat := 19
  const HANDLES: nat := 0x1000
  const ISO_LENGTHS: nat := 0x4000

  function LoadWord(bytes: seq<Byte>, at: nat): (r: Word)
    requires at + 1 < |bytes|
  {
    bytes[at] as nat + 256 * (bytes[at + 1] as nat)
  }

  /** Decodes one record; anything but complete ACL, SCO and ISO data is refused. */
  function ParseMonitor(bytes: seq<Byte>): Option<Packet> {
    if |bytes| < HEADER_SIZE then None else
    var opcode := LoadWord(bytes, 0);
    var controller := LoadWord(bytes, 2);
    var size := LoadWord(bytes, 4);
    if size > |bytes| - HEADER_SIZE then None else
    var payload := bytes[HEADER_SIZE..];
    match opcode
    case ACL_TX => if size < 4 then None else Checked(controller, payload, size, 4, LoadWord(payload, 2), false)
    case ACL_RX => if size < 4 then None else Checked(controller, payload, size, 4, LoadWord(payload, 2), true)
    case SCO_TX => if size < 3 then None else Checked(controller, payload, size, 3, payload[2], false)
    case SCO_RX => if size < 3 then None else Checked(controller, payload, size, 3, payload[2], true)
    case ISO_TX => if size < 4 then None else Checked(controller, payload, size, 4, LoadWord(payload, 2) % ISO_LENGTHS, false)
    case ISO_RX => if size < 4 then None else Checked(controller, payload, size, 4, LoadWord(payload, 2) % ISO_LENGTHS, true)
    case _ => None
  }

  function Checked(controller: Word, payload: seq<Byte>, size: nat, headerSize: nat, length: nat, receive: bool): Option<Packet>
    requires 2 <= headerSize <= size <= |payload|
  {
    if length > size - headerSize then None
    else Some(Packet(controller, LoadWord(payload, 0) % HANDLES, length, receive))
  }

  // ----- The frames themselves -----

  datatype Kind = Acl | Sco | Iso

  /** A data frame by its fields. `flags` are the bits above the connection handle, `lengthFlags`
      those above the length of an ISO packet, `padding` is counted by the record but not by the
      packet. */
  datatype Frame = Frame(
    kind: Kind, receive: bool, controller: Word, handle: nat, flags: nat, lengthFlags: nat, data: seq<Byte>, padding: seq<Byte>)
  {
    /** The fields are in the ranges their encodings have room for. */
    predicate Fits() {
      && handle < HANDLES && flags < 16
      && (match kind
          case Acl => lengthFlags == 0
          case Sco => lengthFlags == 0 && |data| < 256
          case Iso => lengthFlags < 4 && |data| < ISO_LENGTHS)
      && PacketHeaderSize(kind) + |data| + |padding| < 65536
    }
  }

  function PacketHeaderSize(kind: Kind): nat {
    if kind.Sco? then 3 else 4
  }

  function Opcode(kind: Kind, receive: bool): Word {
    (match kind case Acl => ACL_TX case Sco => SCO_TX case Iso => ISO_TX) + if receive then 1 else 0
  }

  function StoreWord(w: Word): (r: seq<Byte>)
    ensures |r| == 2
  {
    [w % 256, w / 256]
  }

  function LengthField(f: Frame): (r: seq<Byte>)
    requires f.Fits()
    ensures |r| == PacketHeaderSize(f.kind) - 2
  {
    if f.kind.Sco? then [|f.data|] else StoreWord(|f.data| + ISO_LENGTHS * f.lengthFlags)
  }

  function Record(f: Frame): (r: seq<Byte>)
    requires f.Fits()
    ensures |r| == HEADER_SIZE + PacketHeaderSize(f.kind) + |f.data| + |f.padding|
  {
    StoreWord(Opcode(f.kind, f.receive)) + StoreWord(f.controller) +
    StoreWord(PacketHeaderSize(f.kind) + |f.data| + |f.padding|) +
    StoreWord(f.handle + HANDLES * f.flags) + LengthField(f) + f.data + f.padding
  }

  lemma {:induction false} RecordFields(f: Frame, rest: seq<Byte>)
    requires f.Fits()
    ensures var bytes := Record(f) + rest;
      && LoadWord(bytes, 0) == Opcode(f.kind, f.receive)
      && LoadWord(bytes, 2) == f.controller
      && LoadWord(bytes, 4) == PacketHeaderSize(f.kind) + |f.data| + |f.padding|
      && LoadWord(bytes, 6) == f.handle + HANDLES * f.flags
      && bytes[8] == LengthField(f)[0]
      && (!f.kind.Sco? ==> bytes[9] == LengthField(f)[1])
  {
    var bytes := Record(f) + rest;
    var o, c := StoreWord(Opcode(f.kind, f.receive)), StoreWord(f.controller);
    var s := StoreWord(PacketHeaderSize(f.kind) + |f.data| + |f.padding|);
    var h := StoreWord(f.handle + HANDLES * f.flags);
    assert bytes[0] == o[0] && bytes[1] == o[1] && bytes[2] == c[0] && bytes[3] == c[1];
    assert bytes[4] == s[0] && bytes[5] == s[1] && bytes[6] == h[0] && bytes[7] == h[1];
  }

  /** Every data frame is recognised and its fields recovered, whatever bytes follow it. */
  lemma {:induction false} FramesAreParsed(f: Frame, rest: seq<Byte>)
    requires f.Fits()
    ensures ParseMonitor(Record(f) + rest) == Some(Packet(f.controller, f.handle, |f.data|, f.receive))
  {
    var bytes := Record(f) + rest;
    RecordFields(f, rest);
    var payload := bytes[HEADER_SIZE..];
    assert payload[0] == bytes[6] && payload[1] == bytes[7] && payload[2] == bytes[8];
    if !f.kind.Sco? {
      assert payload[3] == bytes[9];
      assert LoadWord(payload, 2) == |f.data| + ISO_LENGTHS * f.lengthFlags;
    }
    assert LoadWord(payload, 0) % HANDLES == f.handle;
  }

  /** The data frame at the start of accepted bytes, field by field. */
  ghost function FrameAt(bytes: seq<Byte>): (f: Frame)
    requires ParseMonitor(bytes).Some?
    ensures f.Fits()
    ensures ParseMonitor(bytes).value == Packet(f.controller, f.handle, |f.data|, f.receive)
    ensures LoadWord(bytes, 0) == Opcode(f.kind, f.receive)
    ensures LoadWord(bytes, 4) == PacketHeaderSize(f.kind) + |f.data| + |f.padding|
    ensures LoadWord(bytes, 6) == f.handle + HANDLES * f.flags
    ensures f.kind.Sco? ==> bytes[8] == |f.data|
    ensures !f.kind.Sco? ==> LoadWord(bytes, 8) == |f.data| + ISO_LENGTHS * f.lengthFlags
    ensures var head := HEADER_SIZE + PacketHeaderSize(f.kind);
            && head + |f.data| + |f.padding| <= |bytes|
            && f.data == bytes[head..head + |f.data|]
            && f.padding == bytes[head + |f.data|..head + |f.data| + |f.padding|]
  {
    var opcode, size := LoadWord(bytes, 0), LoadWord(bytes, 4);
    var packet := ParseMonitor(bytes).value;
    assert LoadWord(bytes[HEADER_SIZE..], 0) == LoadWord(bytes, 6);
    assert opcode != SCO_TX && opcode != SCO_RX ==> LoadWord(bytes[HEADER_SIZE..], 2) == LoadWord(bytes, 8);
    var kind := if opcode < SCO_TX then Acl else if opcode < ISO_TX then Sco else Iso;
    var head := HEADER_SIZE + PacketHeaderSize(kind);
    var lengthFlags := if kind.Iso? then LoadWord(bytes, 8) / ISO_LENGTHS else 0;
    Frame(kind, packet.receive, packet.controller, packet.handle, LoadWord(bytes, 6) / HANDLES, lengthFlags,
          bytes[head..head + packet.payload], bytes[head + packet.payload..HEADER_SIZE + size])
  }

  lemma StoreAfterLoad(bytes: seq<Byte>, at: nat)
    requires at + 1 < |bytes|
    ensures StoreWord(LoadWord(bytes, at)) == bytes[at..at + 2]
  {
  }

  /** Nothing else is recognised: accepted bytes are the record of a data frame with the
      reported fields, and what follows that record. */
  lemma {:induction false} OnlyFramesAreParsed(bytes: seq<Byte>) returns (f: Frame, rest: seq<Byte>)
    requires ParseMonitor(bytes).Some?
    ensures f.Fits() && bytes == Record(f) + rest
    ensures ParseMonitor(bytes).value == Packet(f.controller, f.handle, |f.data|, f.receive)
  {
    f := FrameAt(bytes);
    assert f.controller == LoadWord(bytes, 2);
    hide ParseMonitor, FrameAt, StoreWord, Record;
    var head := HEADER_SIZE + PacketHeaderSize(f.kind);
    rest := bytes[head + |f.data| + |f.padding|..];
    StoreAfterLoad(bytes, 0);
    StoreAfterLoad(bytes, 2);
    StoreAfterLoad(bytes, 4);
    StoreAfterLoad(bytes, 6);
    assert LengthField(f) == bytes[8..head] by {
      if !f.kind.Sco? {
        StoreAfterLoad(bytes, 8);
      }
    }
    hide LoadWord, LengthField;
    Assembled(f, bytes, head);
  }

  lemma {:induction false} Assembled(f: Frame, bytes: seq<Byte>, head: nat)
    requires f.Fits() && head == HEADER_SIZE + PacketHeaderSize(f.kind) && head + |f.data| + |f.padding| <= |bytes|
    requires StoreWord(Opcode(f.kind, f.receive)) == bytes[0..2] && StoreWord(f.controller) == bytes[2..4]
    requires StoreWord(PacketHeaderSize(f.kind) + |f.data| + |f.padding|) == bytes[4..6]
    requires StoreWord(f.handle + HANDLES * f.flags) == bytes[6..8] && LengthField(f) == bytes[8..head]
    requires f.data == bytes[head..head + |f.data|]
    requires f.padding == bytes[head + |f.data|..head + |f.data| + |f.padding|]
    ensures bytes == Record(f) + bytes[head + |f.data| + |f.padding|..]
  {
    hide StoreWord, LengthField, Opcode;
    Reassembled(bytes, head, head + |f.data|, head + |f.data| + |f.padding|);
  }

  lemma Reassembled(bytes: seq<Byte>, head: nat, end: nat, size: nat)
    requires 8 <= head <= end <= size <= |bytes|
    ensures bytes == bytes[0..2] + bytes[2..4] + bytes[4..6] + bytes[6..8] + bytes[8..head] +
                     bytes[head..end] + bytes[end..size] + bytes[size..]
  {
  }
}
