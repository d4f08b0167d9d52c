/** Both ends of `puts` (src/client/client_command_handle.c lines
    286-411, src/server/file_transfer.c lines 237-386). */
module Upload {
  import opened Basics
  import opened Bytes
  import opened Protocol

  const CMD_PUTS: int32 := 5
  const CMD_REPLY: int32 := 8
  const BUFFER_SIZE := 4096

  /* ---------- the client ---------- */

  /** The command packet and the file packet that announce an upload. */
  function Announce(name: Text, size: int64, sha: Text): (r: Text)
    requires |sha| <= 64
    ensures |r| == COMMAND_SIZE + FILE_SIZE
  {
    EncodeCommand(InitCommand(CMD_PUTS, name)) + EncodeFile(InitFile(CMD_PUTS, name, size, 0).(hash := Padded(sha, HASH_LEN)))
  }

  /** Where the client starts reading, given the server's go-ahead: an offset past the end means 0. */
  function StartOffset(go: FilePacket, size: nat): int {
    if go.offset > size then 0 else go.offset
  }

  /** What the client's file does: whether it can be opened and its size read, whether its hash can be
      computed, and how much of it can then be read before a read fails. */
  datatype Local = Local(opens: bool, hashes: bool, readable: nat)

  predicate Readable(local: Local, file: Text) {
    local.opens && local.hashes && local.readable >= |file|
  }

  /** Where the reads end that start at `from`. */
  function Reach(file: Text, from: nat, local: Local): (end: nat)
    requires from <= |file|
    ensures from <= end <= |file|
    ensures local.readable >= |file| ==> end == |file|
  {
    if local.readable <= from then from else Min(local.readable, |file|)
  }

  /** What the client sends, given everything it will be sent and how much it can send. */
  function ClientOutput(name: Text, file: Text, sha: Text, incoming: Text, budget: nat, local: Local): Text
    requires |sha| <= 64 && |file| < 0x8000_0000_0000_0000
  {
    var head := Announce(name, |file|, sha);
    if !local.opens then []
    else if !local.hashes then Cut(EncodeCommand(InitCommand(CMD_PUTS, name)), budget)
    else match NextFile(incoming)
      case None => Cut(head, budget)
      case Some(go) =>
        var from := StartOffset(go, |file|);
        if from < 0 then Cut(head, budget) else Cut(head + file[from..Reach(file, from, local)], budget)
  }

  /** read(fd, buf, once): some bytes from the file position, as many as it likes, or none on failure. */
  method ReadChunk(file: Text, pos: nat, buf: array<byte>, once: nat, local: Local) returns (nread: nat)
    requires pos + once <= |file| && 0 < once <= buf.Length
    modifies buf
    ensures nread <= once && pos + nread <= Reach(file, pos, local) && buf[..nread] == file[pos..pos + nread]
    ensures nread == 0 ==> Reach(file, pos, local) == pos
  {
    var n: int := *;
    var most := Min(once, Reach(file, pos, local) - pos);
    nread := if n < 1 || n > most then most else n;
    forall i | 0 <= i < nread { buf[i] := file[pos + i]; }
  }

  lemma CutShort(s: Text, k: nat, n: nat)
    requires n <= k <= |s|
    ensures Cut(s[..k], n) == Cut(s, n)
  {
  }

  /** One more chunk, in full or cut short. */
  lemma ChunkSent(out: Text, file: Text, from: nat, pos: nat, next: nat, end: nat, n: nat)
    requires from <= pos <= next <= end <= |file| && pos - from <= n
    ensures |Cut(file[from..pos], n)| == pos - from
    ensures out + Cut(file[from..pos], n) + Cut(file[pos..next], n - (pos - from)) == out + Cut(file[from..next], n)
    ensures n <= next - from ==> Cut(file[from..next], n) == Cut(file[from..end], n)
  {
    CutExtend(out, file[from..pos], file[pos..next], n);
    assert file[from..next] == file[from..pos] + file[pos..next];
    assert file[from..end][..next - from] == file[from..next];
    if n <= next - from { CutShort(file[from..end], next - from, n); }
  }

  lemma SameReach(file: Text, from: nat, pos: nat, local: Local)
    requires from <= pos <= |file| && pos <= Reach(file, from, local)
    ensures Reach(file, pos, local) == Reach(file, from, local)
  {
  }

  /** The upload loop: chunks of the file through one reused buffer, up to a read that fails. */
  method SendBody(sock: Socket, file: Text, from: nat, local: Local) returns (ok: bool)
    requires from <= |file|
    modifies sock
    ensures sock.incoming == old(sock.incoming)
    ensures sock.outgoing == old(sock.outgoing) + Cut(file[from..Reach(file, from, local)], old(sock.budget))
    ensures ok <==> Reach(file, from, local) - from <= old(sock.budget)
  {
    hide Reach, Cut;
    var buf := new byte[BUFFER_SIZE](i => 0);
    ghost var out, n, end := sock.outgoing, sock.budget, Reach(file, from, local);
    var remaining := |file| - from;
    var pos := from;
    assert Cut(file[from..from], n) == [];
    while remaining > 0
      invariant from <= pos <= end && remaining == |file| - pos && fresh(buf)
      invariant sock.incoming == old(sock.incoming)
      invariant pos - from <= n && sock.budget == n - (pos - from)
      invariant sock.outgoing == out + Cut(file[from..pos], n)
    {
      var once := BUFFER_SIZE;
      if remaining < BUFFER_SIZE {
        once := remaining;
      }
      SameReach(file, from, pos, local);
      var nread := ReadChunk(file, pos, buf, once, local);
      if nread == 0 {
        break;
      }
      ChunkSent(out, file, from, pos, pos + nread, end, n);
      var r := SendFull(sock, buf[..nread]);
      if r == -1 {
        return false;
      }
      pos := pos + nread;
      remaining := remaining - nread;
    }
    return true;
  }

  datatype ClientEnd = NoLocalFile | NoHash | NotAnnounced | NoGoAhead | BadOffset | Interrupted | Finished(reply: Option<Packet>)

  /** Where the client starts reading after this stream, if it gets that far. */
  function ClientStart(incoming: Text, size: nat): (from: Option<nat>)
    ensures from.Some? ==> from.value <= size
  {
    match NextFile(incoming)
    case None => None
    case Some(go) => if StartOffset(go, size) < 0 then None else Some(StartOffset(go, size))
  }

  /** Both packets of the announcement can be sent. */
  predicate Announced(local: Local, budget: nat) {
    local.opens && local.hashes && budget >= COMMAND_SIZE + FILE_SIZE
  }

  /** What follows the announcement when the file can be read: nothing without a go-ahead or with a
      negative offset, the whole file for an offset past its end, and otherwise the file from the offset. */
  lemma ClientResumes(name: Text, file: Text, sha: Text, incoming: Text, budget: nat, local: Local)
    requires |sha| <= 64 && |file| < 0x8000_0000_0000_0000 && Readable(local, file)
    ensures var head := Announce(name, |file|, sha);
            var output := ClientOutput(name, file, sha, incoming, budget, local);
            var go := NextFile(incoming);
      && (go.None? || go.value.offset < 0 ==> output == Cut(head, budget))
      && (go.Some? && 0 <= go.value.offset <= |file| ==> output == Cut(head + file[go.value.offset..], budget))
      && (go.Some? && go.value.offset > |file| ==> output == Cut(head + file, budget))
  {
    hide NextFile, Announce;
    assert file[0..|file|] == file;
  }

  /** The upload branch of process_command. */
  method ClientPuts(sock: Socket, name: Text, file: Text, sha: Text, local: Local) returns (end: ClientEnd)
    requires |sha| <= 64 && |file| < 0x8000_0000_0000_0000
    modifies sock
    ensures sock.outgoing == old(sock.outgoing) +
      if old(sock.budget) < COMMAND_SIZE + FILE_SIZE && local.opens && local.hashes
      then Cut(Announce(name, |file|, sha), old(sock.budget))
      else ClientOutput(name, file, sha, old(sock.incoming), old(sock.budget), local)
    ensures end.Finished? ==>
      && |old(sock.incoming)| >= FILE_SIZE
      && end.reply == NextPacket(true, old(sock.incoming)[FILE_SIZE..])
      && sock.incoming == if end.reply.Some? then old(sock.incoming)[FILE_SIZE + COMMAND_SIZE..] else sock.incoming
    ensures var from := ClientStart(old(sock.incoming), |file|);
      end.Finished? <==>
        && local.opens && local.hashes && from.Some?
        && COMMAND_SIZE + FILE_SIZE + Reach(file, from.value, local) - from.value <= old(sock.budget)
    ensures end == NoLocalFile <==> !local.opens
    ensures end == NoHash <==> local.opens && !local.hashes && old(sock.budget) >= COMMAND_SIZE
    ensures end == NotAnnounced <==>
      local.opens && old(sock.budget) < COMMAND_SIZE + (if local.hashes then FILE_SIZE else 0)
    ensures end == NoGoAhead <==> Announced(local, old(sock.budget)) && NextFile(old(sock.incoming)).None?
    ensures end == BadOffset <==>
      Announced(local, old(sock.budget)) && NextFile(old(sock.incoming)).Some? && NextFile(old(sock.incoming)).value.offset < 0
  {
    hide EncodeCommand, EncodeFile, DecodeCommand, DecodeFile, Reach;
    ghost var out, n := sock.outgoing, sock.budget;
    if !local.opens {
      return NoLocalFile;
    }
    var command := InitCommand(CMD_PUTS, name);
    var info := InitFile(CMD_PUTS, name, |file|, 0).(hash := Padded(sha, HASH_LEN));
    CutExtend(out, EncodeCommand(command), EncodeFile(info), n);
    var r := SendPacket(sock, Command(command));
    if r == -1 {
      assert Cut(EncodeFile(info), 0) == [];
      return NotAnnounced;
    }
    if !local.hashes {
      return NoHash;
    }
    r := SendPacket(sock, File(info));
    if r == -1 {
      return NotAnnounced;
    }
    ghost var head := Announce(name, |file|, sha);
    assert sock.outgoing == out + head && Cut(head, n) == head;
    var go := RecvPacket(sock, false);
    if go.None? {
      return NoGoAhead;
    }
    var from := StartOffset(go.value.file, |file|);
    if from < 0 {
      return BadOffset;
    }
    CutExtend(out, head, file[from..Reach(file, from, local)], n);
    var ok := SendBody(sock, file, from, local);
    if !ok {
      return Interrupted;
    }
    var reply := RecvPacket(sock, true);
    return Finished(reply);
  }

  /* ---------- the server ---------- */

  /** How handle_puts ends. `Broken` keeps what had arrived; `Stored` is the completed blob. */
  datatype PutsEnd =
    | NoCommand
    | OtherCommand
    | NoName
    | NoStorage
    | NoInfo
    | BadInfo
    | Instant(sha: Text)
    | NoFile
    | Refused
    | NoSpace
    | Broken(sha: Text, got: Text)
    | Stored(sha: Text, blob: Text)

  /** What the server's disk and database do: whether the storage directory is there or can be made,
      whether the claimed hash has a `files` row, whether the blob can be opened, and whether it can be
      extended and mapped. */
  datatype Disk = Disk(dir: bool, known: bool, opens: bool, maps: bool)

  /** The upload has to be received, and nothing stands in its way. */
  predicate Works(disk: Disk) {
    disk.dir && !disk.known && disk.opens && disk.maps
  }

  function GoAhead(name: Text, size: int64): (r: Text)
    ensures |r| == FILE_SIZE
  {
    EncodeFile(InitFile(CMD_PUTS, name, size, 0))
  }

  /** handle_puts as a function of the bytes ahead: how it ends, and what it leaves unread. */
  function ServePuts(arg: Text, stream: Text, budget: nat, disk: Disk): (PutsEnd, Text) {
    if arg == [] then (NoName, stream)
    else if !disk.dir then (NoStorage, stream)
    else match NextFile(stream)
      case None => (NoInfo, if |stream| < FILE_SIZE then [] else stream[FILE_SIZE..])
      case Some(info) =>
        NextFileSize(stream);
        var rest := stream[FILE_SIZE..];
        var sha := CString(info.hash);
        if info.fileSize == 0 || |sha| != 64 then (BadInfo, rest)
        else if disk.known then (Instant(sha), rest)
        else if !disk.opens then (NoFile, rest)
        else if budget < FILE_SIZE then (Refused, rest)
        else if info.fileSize < 0 || !disk.maps then (NoSpace, rest)
        else if |rest| < info.fileSize then (Broken(sha, rest), [])
        else (Stored(sha, rest[..info.fileSize]), rest[info.fileSize..])
  }

  lemma NextFileSize(stream: Text)
    ensures NextFile(stream).Some? ==> |stream| >= FILE_SIZE
  {
  }

  /** The loop that fills the mapped file: at most 4096 bytes a call, straight to their place. */
  method ReceiveBody(sock: Socket, mapping: array<byte>) returns (received: nat)
    modifies sock, mapping
    ensures sock.outgoing == old(sock.outgoing) && sock.budget == old(sock.budget)
    ensures received == Min(mapping.Length, |old(sock.incoming)|)
    ensures mapping[..received] == old(sock.incoming)[..received]
    ensures sock.incoming == old(sock.incoming)[received..]
  {
    ghost var stream := sock.incoming;
    received := 0;
    while received < mapping.Length
      invariant 0 <= received <= mapping.Length && received <= |stream|
      invariant sock.outgoing == old(sock.outgoing) && sock.budget == old(sock.budget)
      invariant sock.incoming == stream[received..] && mapping[..received] == stream[..received]
    {
      var once := BUFFER_SIZE;
      if mapping.Length - received < BUFFER_SIZE {
        once := mapping.Length - received;
      }
      ghost var before := mapping[..];
      var ret := sock.Recv(mapping, received, once);
      if ret <= 0 {
        break;
      }
      assert mapping[..received + ret] == before[..received] + stream[received..][..ret];
      received := received + ret;
    }
  }

  /** handle_puts up to its final reply. */
  method HandlePuts(sock: Socket, arg: Text, disk: Disk) returns (end: PutsEnd)
    modifies sock
    ensures (end, sock.incoming) == ServePuts(arg, old(sock.incoming), old(sock.budget), disk)
    ensures sock.outgoing == old(sock.outgoing) + Cut(Opening(end, arg, old(sock.incoming)), old(sock.budget))
    ensures sock.budget == old(sock.budget) - |Cut(Opening(end, arg, old(sock.incoming)), old(sock.budget))|
    ensures end != Refused ==> |Opening(end, arg, old(sock.incoming))| <= old(sock.budget)
    ensures end == Refused ==> old(sock.budget) < FILE_SIZE <= |old(sock.incoming)|
  {
    hide EncodeFile, DecodeFile, CString;
    ghost var stream := sock.incoming;
    if arg == [] {
      return NoName;
    }
    if !disk.dir {
      return NoStorage;
    }
    var packet := RecvPacket(sock, false);
    if packet.None? {
      return NoInfo;
    }
    var info := packet.value.file;
    var sha := CString(info.hash);
    if info.fileSize == 0 || |sha| != 64 {
      return BadInfo;
    }
    if disk.known {
      return Instant(sha);
    }
    if !disk.opens {
      return NoFile;
    }
    var r := SendPacket(sock, File(InitFile(CMD_PUTS, arg, info.fileSize, 0)));
    if r == -1 {
      return Refused;
    }
    if info.fileSize < 0 || !disk.maps {
      return NoSpace;
    }
    var mapping := new byte[info.fileSize](i => 0);
    var received := ReceiveBody(sock, mapping);
    if received < info.fileSize {
      assert stream[FILE_SIZE..][..received] == stream[FILE_SIZE..];
      return Broken(sha, mapping[..received]);
    }
    assert mapping[..received] == mapping[..];
    return Stored(sha, mapping[..]);
  }

  /* ---------- both ends together ---------- */

  /** An upload the client can announce: a name and a 64-digit hash, and a file that is not empty. */
  ghost predicate Uploadable(name: Text, file: Text, sha: Text) {
    && 0 < |name| <= 255 && NUL !in name
    && |sha| == 64 && NUL !in sha
    && 0 < |file| < 0x8000_0000_0000_0000
  }

  /** One turn of a logged-in session's command loop on a puts: the command packet, handle_puts, the closing
      text reply. */
  datatype ServerRun = ServerRun(end: PutsEnd, rest: Text, sent: Text)

  function Serve(stream: Text, budget: nat, disk: Disk, reply: Text): ServerRun {
    match NextCommand(stream)
    case None => ServerRun(NoCommand, if |stream| < COMMAND_SIZE then [] else stream[COMMAND_SIZE..], [])
    case Some(c) =>
      NextCommandSize(stream);
      var tail := stream[COMMAND_SIZE..];
      if c.cmdType != CMD_PUTS then ServerRun(OtherCommand, tail, [])
      else
        var (end, rest) := ServePuts(CString(c.data), tail, budget, disk);
        ServerRun(end, rest, Cut(Opening(end, CString(c.data), tail) + EncodeCommand(InitCommand(CMD_REPLY, reply)), budget))
  }

  /** The go-ahead, in the cases that get that far. */
  function Opening(end: PutsEnd, arg: Text, tail: Text): Text {
    if (end.Stored? || end.Broken? || end.NoSpace? || end.Refused?) && |tail| >= FILE_SIZE
    then GoAhead(arg, DecodeFile(tail[..FILE_SIZE]).fileSize) else []
  }

  /** That turn on a socket. A refused go-ahead is not followed by a reply. */
  method ServeOne(sock: Socket, disk: Disk, reply: Text) returns (end: PutsEnd)
    modifies sock
    ensures var run := Serve(old(sock.incoming), old(sock.budget), disk, reply);
      end == run.end && sock.incoming == run.rest && sock.outgoing == old(sock.outgoing) + run.sent
  {
    ghost var out, n := sock.outgoing, sock.budget;
    var packet := RecvPacket(sock, true);
    if packet.None? {
      return NoCommand;
    }
    var c := packet.value.command;
    if c.cmdType != CMD_PUTS {
      return OtherCommand;
    }
    ghost var tail := sock.incoming;
    var arg := CString(c.data);
    end := HandlePuts(sock, arg, disk);
    ghost var go := Opening(end, arg, tail);
    var answer := InitCommand(CMD_REPLY, reply);
    if end != Refused {
      CutExtend(out, go, EncodeCommand(answer), n);
      var r := SendPacket(sock, Command(answer));
    } else {
      CutShort(go + EncodeCommand(answer), |go|, n);
      assert (go + EncodeCommand(answer))[..|go|] == go;
    }
  }

  lemma NextCommandSize(stream: Text)
    ensures NextCommand(stream).Some? ==> |stream| >= COMMAND_SIZE
  {
  }

  lemma CommandArrives(name: Text, rest: Text)
    requires |name| <= 255 && NUL !in name
    ensures var c := NextCommand(EncodeCommand(InitCommand(CMD_PUTS, name)) + rest);
      c.Some? && c.value.cmdType == CMD_PUTS && CString(c.value.data) == name
  {
    TextSurvives(CMD_PUTS, name, rest);
    assert Clip(name) == name;
  }

  lemma InfoArrives(name: Text, size: int64, sha: Text, rest: Text)
    requires |name| <= 255 && NUL !in name && |sha| <= 64 && NUL !in sha
    ensures var info := InitFile(CMD_PUTS, name, size, 0).(hash := Padded(sha, HASH_LEN));
      NextFile(EncodeFile(info) + rest) == Some(info) && CString(info.hash) == sha
  {
    var info := InitFile(CMD_PUTS, name, size, 0).(hash := Padded(sha, HASH_LEN));
    ClipClean(name);
    assert Sendable(File(info));
    NextOfSent(File(info), rest);
    assert NextPacket(false, EncodeFile(info) + rest) == Some(File(info));
    CStringOf(sha, Zeros(HASH_LEN - |sha|));
  }

  lemma GoAheadArrives(name: Text, size: int64, rest: Text)
    requires NUL !in name
    ensures NextFile(GoAhead(name, size) + rest) == Some(InitFile(CMD_PUTS, name, size, 0))
  {
    var info := InitFile(CMD_PUTS, name, size, 0);
    ClipClean(name);
    assert info.fileName[FILE_NAME_LEN - 1] == NUL;
    assert Sendable(File(info));
    NextOfSent(File(info), rest);
    assert NextPacket(false, GoAhead(name, size) + rest) == Some(File(info));
  }

  /** The server once the announcement has arrived, followed by `body`. */
  lemma ServerAnnounced(name: Text, size: int64, sha: Text, body: Text, budget: nat, disk: Disk, reply: Text)
    requires 0 < |name| <= 255 && NUL !in name && |sha| == 64 && NUL !in sha && size > 0
    requires budget >= FILE_SIZE && Works(disk)
    ensures var run := Serve(Announce(name, size, sha) + body, budget, disk, reply);
      && run.end == (if |body| < size then Broken(sha, body) else Stored(sha, body[..size]))
      && run.rest == (if |body| < size then [] else body[size..])
      && run.sent == Cut(GoAhead(name, size) + EncodeCommand(InitCommand(CMD_REPLY, reply)), budget)
  {
    var command := EncodeCommand(InitCommand(CMD_PUTS, name));
    var info := InitFile(CMD_PUTS, name, size, 0).(hash := Padded(sha, HASH_LEN));
    var tail := EncodeFile(info) + body;
    var stream := Announce(name, size, sha) + body;
    Associative(command, EncodeFile(info), body);
    assert stream == command + tail && stream[COMMAND_SIZE..] == tail;
    CommandArrives(name, tail);
    InfoArrives(name, size, sha, body);
    assert tail[FILE_SIZE..] == body && tail[..FILE_SIZE] == EncodeFile(info);
    FileRoundTrip(info);
  }

  /** The server while the announcement is incomplete. */
  lemma ServerUnannounced(name: Text, size: int64, sha: Text, n: nat, budget: nat, disk: Disk, reply: Text)
    requires 0 < |name| <= 255 && NUL !in name && |sha| == 64 && n < COMMAND_SIZE + FILE_SIZE
    ensures var end := Serve(Announce(name, size, sha)[..n], budget, disk, reply).end;
      end == NoCommand || end == NoStorage || end == NoInfo
  {
    if n >= COMMAND_SIZE {
      var command := EncodeCommand(InitCommand(CMD_PUTS, name));
      var stream := Announce(name, size, sha)[..n];
      assert stream == command + stream[COMMAND_SIZE..];
      CommandArrives(name, stream[COMMAND_SIZE..]);
    }
  }

  /** How every announced upload ends when its two packets have arrived, with `more` behind them: each end
      has its exact condition, and the reply follows every end but one. */
  lemma ServerEnds(name: Text, size: int64, sha: Text, more: Text, budget: nat, disk: Disk, reply: Text)
    requires |name| <= 255 && NUL !in name && |sha| <= 64 && NUL !in sha
    ensures var run := Serve(Announce(name, size, sha) + more, budget, disk, reply);
            var info := EncodeFile(InitFile(CMD_PUTS, name, size, 0).(hash := Padded(sha, HASH_LEN)));
            var valid := size != 0 && |sha| == 64;
            var starts := name != [] && disk.dir && valid && !disk.known && disk.opens;
            var answer := EncodeCommand(InitCommand(CMD_REPLY, reply));
      && (run.end == NoName <==> name == [])
      && (run.end == NoStorage <==> name != [] && !disk.dir)
      && (run.end == BadInfo <==> name != [] && disk.dir && !valid)
      && (run.end.Instant? <==> name != [] && disk.dir && valid && disk.known)
      && (run.end.Instant? ==> run.end.sha == sha)
      && (run.end == NoFile <==> name != [] && disk.dir && valid && !disk.known && !disk.opens)
      && (run.end == Refused <==> starts && budget < FILE_SIZE)
      && (run.end == NoSpace <==> starts && budget >= FILE_SIZE && (size < 0 || !disk.maps))
      && (run.end.Broken? <==> starts && budget >= FILE_SIZE && disk.maps && size > |more|)
      && (run.end.Stored? <==> starts && budget >= FILE_SIZE && disk.maps && 0 < size <= |more|)
      // what is left unread
      && run.rest == (if run.end == NoName || run.end == NoStorage then info + more
                      else if run.end.Broken? then []
                      else if run.end.Stored? then more[size..]
                      else more)
      // what is sent
      && run.sent == (if run.end == Refused then Cut(GoAhead(name, size), budget)
                      else if starts then Cut(GoAhead(name, size) + answer, budget)
                      else Cut(answer, budget))
  {
    hide GoAhead, NextFile, NextCommand, CString, EncodeFile, EncodeCommand, DecodeFile, Announce;
    AnnouncedTail(name, size, sha, more);
    var info := InitFile(CMD_PUTS, name, size, 0).(hash := Padded(sha, HASH_LEN));
    var tail := EncodeFile(info) + more;
    FileRoundTrip(info);
    var answer := EncodeCommand(InitCommand(CMD_REPLY, reply));
    assert [] + answer == answer;
    CutShort(GoAhead(name, size) + answer, FILE_SIZE, if budget < FILE_SIZE then budget else FILE_SIZE);
    assert (GoAhead(name, size) + answer)[..FILE_SIZE] == GoAhead(name, size);
  }

  /** What the server finds in its stream after an announcement. */
  lemma AnnouncedTail(name: Text, size: int64, sha: Text, more: Text)
    requires |name| <= 255 && NUL !in name && |sha| <= 64 && NUL !in sha
    ensures var stream := Announce(name, size, sha) + more;
            var info := InitFile(CMD_PUTS, name, size, 0).(hash := Padded(sha, HASH_LEN));
            var tail := EncodeFile(info) + more;
      && NextCommand(stream).Some? && NextCommand(stream).value.cmdType == CMD_PUTS
      && CString(NextCommand(stream).value.data) == name
      && stream[COMMAND_SIZE..] == tail
      && NextFile(tail) == Some(info) && CString(info.hash) == sha
      && tail[FILE_SIZE..] == more && tail[..FILE_SIZE] == EncodeFile(info)
  {
    var command := EncodeCommand(InitCommand(CMD_PUTS, name));
    var info := InitFile(CMD_PUTS, name, size, 0).(hash := Padded(sha, HASH_LEN));
    var tail := EncodeFile(info) + more;
    Associative(command, EncodeFile(info), more);
    CommandArrives(name, tail);
    InfoArrives(name, size, sha, more);
  }

  /** Nothing is stored when something stands in the way. */
  lemma StoredNeeds(stream: Text, budget: nat, disk: Disk, reply: Text)
    ensures Serve(stream, budget, disk, reply).end.Stored? ==> Works(disk) && budget >= FILE_SIZE
  {
  }

  /** The server on what reaches it. `more` is whatever the client sends after the upload; `n` is where
      the stream is cut. The upload is stored exactly when its last byte arrived, the disk works and the
      go-ahead could be sent; then the blob is the file, and what is left unread is exactly what follows
      the upload. When only bytes are missing, what it kept is the prefix of the file that arrived. */
  lemma ServerStoresIff(name: Text, file: Text, sha: Text, more: Text, n: nat, budget: nat, disk: Disk, reply: Text)
    requires Uploadable(name, file, sha)
    requires n <= |Announce(name, |file|, sha) + file + more|
    ensures var full := Announce(name, |file|, sha) + file + more;
            var run := Serve(full[..n], budget, disk, reply);
            var head := COMMAND_SIZE + FILE_SIZE;
      && (run.end.Stored? <==> n >= head + |file| && Works(disk) && budget >= FILE_SIZE)
      && (run.end.Stored? ==> run.end == Stored(sha, file) && run.rest == full[head + |file|..n])
      && (Works(disk) && budget >= FILE_SIZE && n >= head ==>
            && (n < head + |file| ==> run.end == Broken(sha, file[..n - head]))
            && run.sent == Cut(GoAhead(name, |file|) + EncodeCommand(InitCommand(CMD_REPLY, reply)), budget))
  {
    hide Serve, Announce, GoAhead, EncodeCommand, Works;
    var head := Announce(name, |file|, sha);
    var full := head + file + more;
    StoredNeeds(full[..n], budget, disk, reply);
    if n < |head| {
      assert full[..n] == head[..n];
      ServerUnannounced(name, |file|, sha, n, budget, disk, reply);
    } else if Works(disk) && budget >= FILE_SIZE {
      var body := full[|head|..n];
      assert full[..|head|] == head && full[..n] == full[..|head|] + body;
      ServerAnnounced(name, |file|, sha, body, budget, disk, reply);
      if |body| < |file| {
        assert body == file[..|body|];
      } else {
        SliceOfSlice(full, |head|, n, 0, |file|);
        SliceOfSlice(full, |head|, n, |file|, n - |head|);
        assert full[|head|..|head| + |file|] == file;
        assert body[..|file|] == body[0..|file|] && body[|file|..] == body[|file|..n - |head|];
      }
    }
  }

  /** A finished run of the two ends over one connection: each end received some prefix of what the
      other end sent, given what that end received. */
  ghost predicate Connected(name: Text, file: Text, sha: Text, up: Text, down: Text, budget: nat, local: Local,
        serverBudget: nat, disk: Disk, reply: Text)
    requires Uploadable(name, file, sha)
  {
    && up <= ClientOutput(name, file, sha, down, budget, local)
    && down <= Serve(up, serverBudget, disk, reply).sent
  }

  /** Whatever the server sends that is as long as a file packet starts with a go-ahead. */
  lemma SentStartsWithGoAhead(up: Text, budget: nat, disk: Disk, reply: Text) returns (arg: Text, size: int64)
    requires |Serve(up, budget, disk, reply).sent| >= FILE_SIZE
    ensures NUL !in arg && Serve(up, budget, disk, reply).sent[..FILE_SIZE] == GoAhead(arg, size)
  {
    hide EncodeFile, DecodeFile, EncodeCommand, GoAhead, ServePuts;
    NextCommandSize(up);
    arg := CString(NextCommand(up).value.data);
    size := 0;
    var tail := up[COMMAND_SIZE..];
    if |tail| >= FILE_SIZE { size := DecodeFile(tail[..FILE_SIZE]).fileSize; }
  }

  /** The server only ever asks for the file from its start. */
  lemma OffsetIsZero(up: Text, down: Text, serverBudget: nat, disk: Disk, reply: Text)
    requires down <= Serve(up, serverBudget, disk, reply).sent && NextFile(down).Some?
    ensures NextFile(down).value.offset == 0
  {
    hide Serve, GoAhead;
    NextFileSize(down);
    var arg, size := SentStartsWithGoAhead(up, serverBudget, disk, reply);
    assert down[..FILE_SIZE] == GoAhead(arg, size);
    GoAheadArrives(arg, size, down[FILE_SIZE..]);
    assert down == GoAhead(arg, size) + down[FILE_SIZE..];
  }

  lemma CommandFirst(name: Text, size: int64, sha: Text)
    requires |sha| <= 64
    ensures EncodeCommand(InitCommand(CMD_PUTS, name)) <= Announce(name, size, sha)
  {
  }

  lemma ClientSendsPrefix(name: Text, file: Text, sha: Text, up: Text, down: Text, budget: nat, local: Local,
        serverBudget: nat, disk: Disk, reply: Text)
    requires Uploadable(name, file, sha)
    requires Connected(name, file, sha, up, down, budget, local, serverBudget, disk, reply)
    ensures up <= Announce(name, |file|, sha) + file
  {
    hide Serve, Announce;
    var head := Announce(name, |file|, sha);
    if local.opens && !local.hashes {
      CommandFirst(name, |file|, sha);
    } else if NextFile(down).Some? {
      OffsetIsZero(up, down, serverBudget, disk, reply);
      var end := Reach(file, 0, local);
      assert head + file[0..end] <= head + file;
    }
  }

  /** End to end, for every fragmentation, every way the connection can be cut and every failure of either
      side's file: an upload is stored exactly when all of the announcement and the file arrived and
      nothing at the server stood in its way. It is then the client's file, and nothing of it is left in
      front of the next command. */
  lemma StoredMeansWhole(name: Text, file: Text, sha: Text, up: Text, down: Text, budget: nat, local: Local,
        serverBudget: nat, disk: Disk, reply: Text)
    requires Uploadable(name, file, sha)
    requires Connected(name, file, sha, up, down, budget, local, serverBudget, disk, reply)
    ensures var run := Serve(up, serverBudget, disk, reply);
      && (run.end.Stored? <==> up == Announce(name, |file|, sha) + file && Works(disk) && serverBudget >= FILE_SIZE)
      && (run.end.Stored? ==> run.end == Stored(sha, file) && run.rest == [])
  {
    ClientSendsPrefix(name, file, sha, up, down, budget, local, serverBudget, disk, reply);
    var full := Announce(name, |file|, sha) + file;
    assert full + [] == full && full[..|up|] == up;
    ServerStoresIff(name, file, sha, [], |up|, serverBudget, disk, reply);
  }

  lemma ReplyArrives(name: Text, size: int64, reply: Text)
    requires NUL !in name && NUL !in reply
    ensures var down := GoAhead(name, size) + EncodeCommand(InitCommand(CMD_REPLY, reply));
      && NextFile(down) == Some(InitFile(CMD_PUTS, name, size, 0))
      && NextPacket(true, down[FILE_SIZE..]) == Some(Command(InitCommand(CMD_REPLY, reply)))
  {
    var answer := EncodeCommand(InitCommand(CMD_REPLY, reply));
    GoAheadArrives(name, size, answer);
    TextSurvives(CMD_REPLY, reply, []);
    NextOfSent(Command(InitCommand(CMD_REPLY, reply)), []);
    assert (GoAhead(name, size) + answer)[FILE_SIZE..] == answer + [];
  }

  /** And if nothing is cut and nothing fails, the upload is stored, and the client has read the go-ahead and the reply and
      nothing else is waiting for it: both ends are at a command boundary. */
  lemma UploadCompletes(name: Text, file: Text, sha: Text, up: Text, down: Text, budget: nat, local: Local,
        serverBudget: nat, disk: Disk, reply: Text)
    requires Uploadable(name, file, sha) && NUL !in reply && Readable(local, file) && Works(disk)
    requires up == ClientOutput(name, file, sha, down, budget, local) && budget >= COMMAND_SIZE + FILE_SIZE + |file|
    requires down == Serve(up, serverBudget, disk, reply).sent && serverBudget >= FILE_SIZE + COMMAND_SIZE
    ensures Serve(up, serverBudget, disk, reply) == ServerRun(Stored(sha, file), [], down)
    ensures |down| == FILE_SIZE + COMMAND_SIZE
    ensures NextPacket(true, down[FILE_SIZE..]) == Some(Command(InitCommand(CMD_REPLY, reply)))
  {
    hide Serve, Announce;
    var head := Announce(name, |file|, sha);
    ClientSendsPrefix(name, file, sha, up, down, budget, local, serverBudget, disk, reply);
    var full := head + file;
    assert full + [] == full && full[..|up|] == up;
    ServerStoresIff(name, file, sha, [], |up|, serverBudget, disk, reply);
    assert down == GoAhead(name, |file|) + EncodeCommand(InitCommand(CMD_REPLY, reply));
    ReplyArrives(name, |file|, reply);
    assert file[0..] == file;
    StoredMeansWhole(name, file, sha, up, down, budget, local, serverBudget, disk, reply);
  }
}
