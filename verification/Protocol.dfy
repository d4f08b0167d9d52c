/** Fixed-size packets over a byte stream that may be cut into pieces anywhere (src/common/protocol.c,
    include/protocol.h). */
module Protocol {
  import opened Basics
  import opened Bytes

  const CMD_DATA_LEN := 256
  const FILE_NAME_LEN := 256
  const HASH_LEN := 65
  const COMMAND_SIZE := 264   // 4 + 4 + 256
  const FILE_SIZE := 352      // 4 + 4 + 8 + 8 + 256 + 65, padded to a multiple of 8

  datatype CommandPacket = CommandPacket(cmdType: int32, dataLen: int32, data: Text)

  datatype FilePacket = FilePacket(cmdType: int32, dataLen: int32, fileSize: int64, offset: int64, fileName: Text, hash: Text)

  /** strncpy into a zeroed array of 256: the first 255 bytes, the rest zero. */
  function Clip(text: Text): Text {
    text[..Min(|text|, 255)]
  }

  function Padded(text: Text, n: nat): (r: Text)
    requires |text| <= n
    ensures |r| == n
  {
    text + Zeros(n - |text|)
  }

  function InitCommand(cmdType: int32, text: Text): CommandPacket {
    CommandPacket(cmdType, |Clip(text)|, Padded(Clip(text), CMD_DATA_LEN))
  }

  function InitFile(cmdType: int32, name: Text, fileSize: int64, offset: int64): FilePacket {
    FilePacket(cmdType, |Clip(name)|, fileSize, offset, Padded(Clip(name), FILE_NAME_LEN), Zeros(HASH_LEN))
  }

  /* ---------- struct layout ---------- */

  function Word(x: int32): (r: Text)
    ensures |r| == 4
  {
    Int32Fits(x);
    ToSigned(x, 4)
  }

  function Long(x: int64): (r: Text)
    ensures |r| == 8
  {
    Int64Fits(x);
    ToSigned(x, 8)
  }

  function ReadWord(b: Text): int32
    requires |b| == 4
  {
    SignedInRange(b);
    FromSigned(b)
  }

  function ReadLong(b: Text): int64
    requires |b| == 8
  {
    SignedInRange(b);
    FromSigned(b)
  }

  function EncodeCommand(p: CommandPacket): (r: Text)
    requires |p.data| == CMD_DATA_LEN
    ensures |r| == COMMAND_SIZE
  {
    Word(p.cmdType) + Word(p.dataLen) + p.data
  }

  function DecodeCommand(b: Text): (p: CommandPacket)
    requires |b| == COMMAND_SIZE
    ensures |p.data| == CMD_DATA_LEN
  {
    CommandPacket(ReadWord(b[..4]), ReadWord(b[4..8]), b[8..])
  }

  function EncodeFile(p: FilePacket): (r: Text)
    requires |p.fileName| == FILE_NAME_LEN && |p.hash| == HASH_LEN
    ensures |r| == FILE_SIZE
  {
    Word(p.cmdType) + Word(p.dataLen) + Long(p.fileSize) + Long(p.offset) + p.fileName + p.hash + Zeros(7)
  }

  function DecodeFile(b: Text): (p: FilePacket)
    requires |b| == FILE_SIZE
    ensures |p.fileName| == FILE_NAME_LEN && |p.hash| == HASH_LEN
  {
    FilePacket(ReadWord(b[..4]), ReadWord(b[4..8]), ReadLong(b[8..16]), ReadLong(b[16..24]), b[24..280], b[280..345])
  }

  lemma WordRoundTrip(x: int32)
    ensures ReadWord(Word(x)) == x
  {
    Int32Fits(x);
    SignedRoundTrip(x, 4);
  }

  lemma LongRoundTrip(x: int64)
    ensures ReadLong(Long(x)) == x
  {
    Int64Fits(x);
    SignedRoundTrip(x, 8);
  }

  lemma CommandRoundTrip(p: CommandPacket)
    requires |p.data| == CMD_DATA_LEN
    ensures DecodeCommand(EncodeCommand(p)) == p
  {
    var b := EncodeCommand(p);
    assert b[..4] == Word(p.cmdType) && b[4..8] == Word(p.dataLen) && b[8..] == p.data;
    WordRoundTrip(p.cmdType);
    WordRoundTrip(p.dataLen);
  }

  lemma FileRoundTrip(p: FilePacket)
    requires |p.fileName| == FILE_NAME_LEN && |p.hash| == HASH_LEN
    ensures DecodeFile(EncodeFile(p)) == p
  {
    hide Word, Long, ReadWord, ReadLong, Zeros;
    var b := EncodeFile(p);
    assert b[..4] == Word(p.cmdType) && b[4..8] == Word(p.dataLen);
    assert b[8..16] == Long(p.fileSize) && b[16..24] == Long(p.offset);
    assert b[24..280] == p.fileName && b[280..345] == p.hash;
    WordRoundTrip(p.cmdType);
    WordRoundTrip(p.dataLen);
    LongRoundTrip(p.fileSize);
    LongRoundTrip(p.offset);
  }

  /* ---------- what a receiver makes of the bytes ahead of it ---------- */

  /** recv_command_packet: a whole struct whose length field is in range, with the last byte forced to NUL. */
  function NextCommand(stream: Text): Option<CommandPacket> {
    if |stream| < COMMAND_SIZE then None
    else
      var p := DecodeCommand(stream[..COMMAND_SIZE]);
      if p.dataLen < 0 || p.dataLen >= CMD_DATA_LEN then None
      else Some(p.(data := p.data[CMD_DATA_LEN - 1 := NUL]))
  }

  function NextFile(stream: Text): Option<FilePacket> {
    if |stream| < FILE_SIZE then None
    else
      var p := DecodeFile(stream[..FILE_SIZE]);
      if p.dataLen < 0 || p.dataLen >= FILE_NAME_LEN then None
      else Some(p.(fileName := p.fileName[FILE_NAME_LEN - 1 := NUL]))
  }

  /** Either kind of packet; the two ends agree on the order of kinds. */
  datatype Packet = Command(command: CommandPacket) | File(file: FilePacket)

  /** Packets as the init functions leave them: sizes right, text terminated, length field in range. */
  ghost predicate Sendable(p: Packet)
    ensures Sendable(p) ==> Sized(p)
  {
    match p
    case Command(c) => |c.data| == CMD_DATA_LEN && c.data[CMD_DATA_LEN - 1] == NUL && 0 <= c.dataLen < CMD_DATA_LEN
    case File(f) =>
      |f.fileName| == FILE_NAME_LEN && |f.hash| == HASH_LEN && f.fileName[FILE_NAME_LEN - 1] == NUL && 0 <= f.dataLen < FILE_NAME_LEN
  }

  predicate Sized(p: Packet) {
    match p
    case Command(c) => |c.data| == CMD_DATA_LEN
    case File(f) => |f.fileName| == FILE_NAME_LEN && |f.hash| == HASH_LEN
  }

  predicate AllSized(ps: seq<Packet>) {
    forall p :: p in ps ==> Sized(p)
  }

  ghost predicate AllSendable(ps: seq<Packet>)
    ensures AllSendable(ps) ==> AllSized(ps)
  {
    forall p :: p in ps ==> Sendable(p)
  }

  function Encode(p: Packet): (r: Text)
    requires Sized(p)
    ensures |r| == Size(p.Command?)
  {
    match p
    case Command(c) => EncodeCommand(c)
    case File(f) => EncodeFile(f)
  }

  function Size(command: bool): nat {
    if command then COMMAND_SIZE else FILE_SIZE
  }

  function NextPacket(command: bool, stream: Text): (r: Option<Packet>)
    ensures r.Some? ==> |stream| >= Size(command)
  {
    if command then
      match NextCommand(stream) case Some(c) => Some(Command(c)) case None => None
    else
      match NextFile(stream) case Some(f) => Some(File(f)) case None => None
  }

  /** Receiving packets of the given kinds until one fails. */
  function ReceiveAll(kinds: seq<bool>, stream: Text): seq<Packet> {
    if kinds == [] then []
    else match NextPacket(kinds[0], stream)
      case None => []
      case Some(p) => [p] + ReceiveAll(kinds[1..], stream[Size(kinds[0])..])
  }

  function Stream(ps: seq<Packet>): Text
    requires AllSized(ps)
  {
    if ps == [] then [] else Encode(ps[0]) + Stream(ps[1..])
  }

  function Kinds(ps: seq<Packet>): (r: seq<bool>)
    ensures |r| == |ps|
    ensures forall i :: 0 <= i < |ps| ==> r[i] == ps[i].Command?
  {
    seq(|ps|, i requires 0 <= i < |ps| => ps[i].Command?)
  }

  /** How many of the packets lie wholly within the first n bytes. */
  function Whole(ps: seq<Packet>, n: nat): (k: nat)
    ensures k <= |ps|
  {
    if ps == [] || n < Size(ps[0].Command?) then 0
    else 1 + Whole(ps[1..], n - Size(ps[0].Command?))
  }

  lemma NextOfSent(p: Packet, rest: Text)
    requires Sendable(p)
    ensures NextPacket(p.Command?, Encode(p) + rest) == Some(p)
  {
    var stream := Encode(p) + rest;
    assert stream[..Size(p.Command?)] == Encode(p);
    match p {
      case Command(c) =>
        CommandRoundTrip(c);
        assert c.data[CMD_DATA_LEN - 1 := NUL] == c.data;
      case File(f) =>
        FileRoundTrip(f);
        assert f.fileName[FILE_NAME_LEN - 1 := NUL] == f.fileName;
    }
  }

  /** Any struct that arrives, not only one that the init functions made: it is taken exactly when its
      length field is in 0..255, and then field by field as it was sent but for the last text byte. */
  lemma ReceivedIff(p: Packet, rest: Text)
    requires Sized(p)
    ensures var got := NextPacket(p.Command?, Encode(p) + rest);
      match p
      case Command(c) =>
        && (got.Some? <==> 0 <= c.dataLen <= 255)
        && (got.Some? ==> got.value == Command(c.(data := c.data[255 := NUL])))
      case File(f) =>
        && (got.Some? <==> 0 <= f.dataLen <= 255)
        && (got.Some? ==> got.value == File(f.(fileName := f.fileName[255 := NUL])))
  {
    var stream := Encode(p) + rest;
    assert stream[..Size(p.Command?)] == Encode(p);
    match p {
      case Command(c) => CommandRoundTrip(c);
      case File(f) => FileRoundTrip(f);
    }
  }

  lemma ReceiveOne(p: Packet, kinds: seq<bool>, rest: Text)
    requires Sendable(p)
    ensures ReceiveAll([p.Command?] + kinds, Encode(p) + rest) == [p] + ReceiveAll(kinds, rest)
  {
    NextOfSent(p, rest);
    assert ([p.Command?] + kinds)[1..] == kinds;
    assert (Encode(p) + rest)[Size(p.Command?)..] == rest;
  }

  lemma CutAfterFirst(ps: seq<Packet>, n: nat)
    requires ps != [] && AllSized(ps) && Size(ps[0].Command?) <= n <= |Stream(ps)|
    ensures AllSized(ps[1..]) && n - Size(ps[0].Command?) <= |Stream(ps[1..])|
    ensures Stream(ps)[..n] == Encode(ps[0]) + Stream(ps[1..])[..n - Size(ps[0].Command?)]
  {
  }

  lemma ReceiveFirst(ps: seq<Packet>, n: nat)
    requires ps != [] && AllSendable(ps) && Size(ps[0].Command?) <= n <= |Stream(ps)|
    ensures AllSendable(ps[1..]) && n - Size(ps[0].Command?) <= |Stream(ps[1..])|
    ensures ReceiveAll(Kinds(ps), Stream(ps)[..n])
         == [ps[0]] + ReceiveAll(Kinds(ps[1..]), Stream(ps[1..])[..n - Size(ps[0].Command?)])
  {
    hide ReceiveAll, Stream, Encode, Sendable, Sized;
    CutAfterFirst(ps, n);
    assert Kinds(ps) == [ps[0].Command?] + Kinds(ps[1..]);
    ReceiveOne(ps[0], Kinds(ps[1..]), Stream(ps[1..])[..n - Size(ps[0].Command?)]);
  }

  lemma TakeOneMore(ps: seq<Packet>, k: nat)
    requires ps != [] && k < |ps|
    ensures ps[..k + 1] == [ps[0]] + ps[1..][..k]
  {
  }

  /** Framing: a receiver that asks for the kinds that were sent gets exactly the packets that lie wholly
      within the bytes that reached it, in order and unchanged, however the stream was cut. */
  lemma {:induction false} Framing(ps: seq<Packet>, n: nat)
    requires AllSendable(ps) && n <= |Stream(ps)|
    ensures ReceiveAll(Kinds(ps), Stream(ps)[..n]) == ps[..Whole(ps, n)]
    ensures n == |Stream(ps)| ==> Whole(ps, n) == |ps|
  {
    hide Encode, Sendable, Sized, Kinds;
    if ps == [] {
    } else if n >= Size(ps[0].Command?) {
      var left := n - Size(ps[0].Command?);
      ReceiveFirst(ps, n);
      Framing(ps[1..], left);
      TakeOneMore(ps, Whole(ps[1..], left));
    } else {
      assert NextPacket(Kinds(ps)[0], Stream(ps)[..n]) == None;
    }
  }

  lemma {:induction false} WholeIsMaximal(ps: seq<Packet>, n: nat, k: nat)
    requires k <= |ps| && AllSized(ps)
    ensures k <= Whole(ps, n) <==> |Stream(ps[..k])| <= n
  {
    if k > 0 {
      assert ps[..k][0] == ps[0] && ps[..k][1..] == ps[1..][..k - 1];
      if n >= Size(ps[0].Command?) {
        WholeIsMaximal(ps[1..], n - Size(ps[0].Command?), k - 1);
      }
    }
  }

  /* ---------- text ---------- */

  lemma ClipClean(text: Text)
    requires NUL !in text
    ensures NUL !in Clip(text) && CString(Padded(Clip(text), 256)) == Clip(text)
  {
    CStringOf(Clip(text), Zeros(256 - |Clip(text)|));
  }

  /** A text message arrives as its first 255 bytes with its exact length: complete exactly when it has
      at most 255. */
  lemma TextSurvives(cmdType: int32, text: Text, rest: Text)
    requires NUL !in text
    ensures Sendable(Command(InitCommand(cmdType, text)))
    ensures var got := NextCommand(EncodeCommand(InitCommand(cmdType, text)) + rest);
      && got.Some? && got.value.cmdType == cmdType
      && CString(got.value.data) == Clip(text) && got.value.dataLen == |Clip(text)|
      && (|text| > 255 ==> CString(got.value.data) == text[..255] && got.value.dataLen == 255)
      && (|text| <= 255 ==> got.value.dataLen == |text|)
      && (CString(got.value.data) == text <==> |text| <= 255)
  {
    ClipClean(text);
    var p := InitCommand(cmdType, text);
    assert p.data[CMD_DATA_LEN - 1] == NUL;
    NextOfSent(Command(p), rest);
    assert NextPacket(true, EncodeCommand(p) + rest) == Some(Command(p));
  }

  /* ---------- the socket loops ---------- */

  /** One end of a connection. `incoming` is what will still be delivered before the stream ends, and
      `budget` how many bytes send() will still accept before it fails; how many move in one call is up to
      the kernel. */
  class Socket {
    var incoming: Text
    var outgoing: Text
    var budget: nat

    constructor (incoming: Text, budget: nat)
      ensures this.incoming == incoming && outgoing == [] && this.budget == budget
    {
      this.incoming, outgoing, this.budget := incoming, [], budget;
    }

    method Send(p: Text) returns (ret: int)
      requires p != []
      modifies `outgoing, `budget
      ensures old(budget) > 0 ==>
        && 1 <= ret <= |p| && ret <= old(budget)
        && outgoing == old(outgoing) + p[..ret] && budget == old(budget) - ret
      ensures old(budget) == 0 ==> ret <= 0 && outgoing == old(outgoing) && budget == 0
    {
      ret := *;
      if budget == 0 {
        if ret > 0 { ret := -1; }
        return;
      }
      var most := Min(|p|, budget);
      if ret < 1 || ret > most { ret := most; }
      outgoing := outgoing + p[..ret];
      budget := budget - ret;
    }

    method Recv(buf: array<byte>, at: nat, len: nat) returns (ret: int)
      requires len > 0 && at + len <= buf.Length
      modifies `incoming, buf
      ensures old(incoming) != [] ==>
        && 1 <= ret <= len && ret <= |old(incoming)|
        && buf[..] == old(buf[..at]) + old(incoming)[..ret] + old(buf[at + ret..])
        && incoming == old(incoming)[ret..]
      ensures old(incoming) == [] ==> ret <= 0 && incoming == [] && buf[..] == old(buf[..])
    {
      ret := *;
      if incoming == [] {
        if ret > 0 { ret := 0; }
        return;
      }
      var most := Min(len, |incoming|);
      if ret < 1 || ret > most { ret := most; }
      forall i | 0 <= i < ret { buf[at + i] := incoming[i]; }
      assert buf[..] == old(buf[..at]) + incoming[..ret] + old(buf[at + ret..]);
      incoming := incoming[ret..];
    }
  }

  /** send_full: 0 exactly when everything was accepted; otherwise a prefix went out. */
  method SendFull(sock: Socket, data: Text) returns (r: int)
    modifies sock
    ensures sock.incoming == old(sock.incoming)
    ensures sock.outgoing == old(sock.outgoing) + Cut(data, old(sock.budget))
    ensures sock.budget == old(sock.budget) - |Cut(data, old(sock.budget))|
    ensures r == if |data| <= old(sock.budget) then 0 else -1
  {
    var total := 0;
    while total < |data|
      invariant 0 <= total <= |data| && total <= old(sock.budget)
      invariant sock.budget == old(sock.budget) - total && sock.incoming == old(sock.incoming)
      invariant sock.outgoing == old(sock.outgoing) + data[..total]
    {
      var ret := sock.Send(data[total..]);
      if ret <= 0 {
        return -1;
      }
      assert data[..total + ret] == data[..total] + data[total..][..ret];
      total := total + ret;
    }
    return 0;
  }

  /** recv_full: everything asked for, or a failure once the stream has ended, with what was left used up. */
  method RecvFull(sock: Socket, buf: array<byte>, len: nat) returns (r: int)
    requires 0 < len <= buf.Length
    modifies sock, buf
    ensures sock.outgoing == old(sock.outgoing) && sock.budget == old(sock.budget)
    ensures |old(sock.incoming)| >= len ==>
      r == len && buf[..len] == old(sock.incoming)[..len] && sock.incoming == old(sock.incoming)[len..]
    ensures |old(sock.incoming)| < len ==> r <= 0 && sock.incoming == []
  {
    var total := 0;
    ghost var stream := sock.incoming;
    while total < len
      invariant 0 <= total <= len && total <= |stream|
      invariant sock.outgoing == old(sock.outgoing) && sock.budget == old(sock.budget)
      invariant sock.incoming == stream[total..] && buf[..total] == stream[..total]
    {
      ghost var before := buf[..];
      var ret := sock.Recv(buf, total, len - total);
      if ret <= 0 {
        return ret;
      }
      assert buf[..total + ret] == before[..total] + stream[total..][..ret];
      total := total + ret;
    }
    return total;
  }

  method SendPacket(sock: Socket, p: Packet) returns (r: int)
    requires Sized(p)
    modifies sock
    ensures sock.incoming == old(sock.incoming)
    ensures sock.outgoing == old(sock.outgoing) + Cut(Encode(p), old(sock.budget))
    ensures sock.budget == old(sock.budget) - |Cut(Encode(p), old(sock.budget))|
    ensures r == if |Encode(p)| <= old(sock.budget) then 0 else -1
  {
    r := SendFull(sock, Encode(p));
  }

  /** recv_command_packet and recv_file_packet; None stands for a result <= 0. */
  method RecvPacket(sock: Socket, command: bool) returns (p: Option<Packet>)
    modifies sock
    ensures sock.outgoing == old(sock.outgoing) && sock.budget == old(sock.budget)
    ensures p == NextPacket(command, old(sock.incoming))
    ensures sock.incoming == if |old(sock.incoming)| < Size(command) then [] else old(sock.incoming)[Size(command)..]
  {
    var size := Size(command);
    var buf := new byte[size](i => 0);
    var ret := RecvFull(sock, buf, size);
    if ret <= 0 {
      return None;
    }
    var bytes := buf[..size];
    if command {
      var c := DecodeCommand(bytes);
      if c.dataLen < 0 || c.dataLen >= CMD_DATA_LEN {
        return None;
      }
      return Some(Command(c.(data := c.data[CMD_DATA_LEN - 1 := NUL])));
    } else {
      var f := DecodeFile(bytes);
      if f.dataLen < 0 || f.dataLen >= FILE_NAME_LEN {
        return None;
      }
      return Some(File(f.(fileName := f.fileName[FILE_NAME_LEN - 1 := NUL])));
    }
  }

  method SendAll(sock: Socket, ps: seq<Packet>)
    requires AllSized(ps)
    modifies sock
    ensures sock.outgoing == old(sock.outgoing) + Cut(Stream(ps), old(sock.budget))
    decreases |ps|
  {
    if |ps| > 0 {
      assert ps[0] in ps;
      ghost var out, n := sock.outgoing, sock.budget;
      var r := SendPacket(sock, ps[0]);
      SendAll(sock, ps[1..]);
      CutExtend(out, Encode(ps[0]), Stream(ps[1..]), n);
    }
  }

  /** Sending packets from one end and receiving them at the other: whatever the fragmentation, a sender
      cut off after `budget` bytes delivers exactly the packets that lie wholly within them. */
  method Exchange(ps: seq<Packet>, budget: nat) returns (got: seq<Packet>)
    requires AllSendable(ps)
    ensures got == ps[..Whole(ps, Min(budget, |Stream(ps)|))]
  {
    var sender := new Socket([], budget);
    SendAll(sender, ps);
    var receiver := new Socket(sender.outgoing, 0);
    got := ReceiveLoop(receiver, Kinds(ps));
    assert [] + Cut(Stream(ps), budget) == Stream(ps)[..Min(budget, |Stream(ps)|)];
    Framing(ps, Min(budget, |Stream(ps)|));
  }

  method ReceiveLoop(sock: Socket, kinds: seq<bool>) returns (got: seq<Packet>)
    modifies sock
    ensures got == ReceiveAll(kinds, old(sock.incoming))
  {
    got := [];
    assert kinds[0..] == kinds;
    for i := 0 to |kinds|
      invariant got + ReceiveAll(kinds[i..], sock.incoming) == ReceiveAll(kinds, old(sock.incoming))
    {
      assert kinds[i..][0] == kinds[i] && kinds[i..][1..] == kinds[i + 1..];
      ghost var before, ahead := got, sock.incoming;
      var p := RecvPacket(sock, kinds[i]);
      if p.None? {
        return;
      }
      Associative(before, [p.value], ReceiveAll(kinds[i + 1..], sock.incoming));
      got := got + [p.value];
    }
    assert kinds[|kinds|..] == [];
  }
}
