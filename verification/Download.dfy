/** The server's side of `gets`: blocks of a stored file, and the record of how far a client got
    (src/server/file_transfer.c lines 50-94 and 121-235, src/server/dao_vfs.c lines 666-762). */
module Download {
  import opened Basics
  import opened Bytes

  const BLOCK := 10485760
  const MAX_SIZE := 0x7FFF_FFFF * BLOCK

  /** C's conversion to int. */
  function ToInt32(n: int): int32 {
    var m := n % 0x1_0000_0000;
    if m < 0x8000_0000 then m else m - 0x1_0000_0000
  }

  /** calculate_total_blocks: unsigned 64-bit arithmetic, then a conversion to int. */
  function TotalBlocks(fileSize: nat): int32 {
    ToInt32((fileSize + BLOCK - 1) % 0x1_0000_0000_0000_0000 / BLOCK)
  }

  /** The number of blocks a file of this size has. */
  function Ceiling(fileSize: nat): nat {
    (fileSize + BLOCK - 1) / BLOCK
  }

  /** The count is right exactly up to (2^31 - 1) blocks, over all 64-bit sizes. */
  lemma TotalBlocksIff(fileSize: nat)
    requires fileSize < 0x1_0000_0000_0000_0000
    ensures TotalBlocks(fileSize) == Ceiling(fileSize) <==> fileSize <= MAX_SIZE
  {
    if fileSize <= MAX_SIZE {
      assert Ceiling(fileSize) <= 0x7FFF_FFFF;
    } else {
      assert Ceiling(fileSize) > 0x7FFF_FFFF;
    }
  }

  function Offset(i: nat): nat {
    i * BLOCK
  }

  function BlockSize(fileSize: nat, total: int, i: nat): int32 {
    if i == total - 1 then ToInt32(fileSize - Offset(i)) else BLOCK
  }

  /** Every block has between 1 and BLOCK bytes and they follow each other up to the end of the file. */
  lemma BlockBounds(fileSize: nat, i: nat)
    requires 0 < fileSize <= MAX_SIZE && i < TotalBlocks(fileSize)
    ensures 1 <= BlockSize(fileSize, TotalBlocks(fileSize), i) <= BLOCK
    ensures Offset(i) + BlockSize(fileSize, TotalBlocks(fileSize), i)
         == if i + 1 < TotalBlocks(fileSize) then Offset(i + 1) else fileSize
  {
    TotalBlocksIff(fileSize);
    var total := Ceiling(fileSize);
    assert BLOCK * total <= fileSize + BLOCK - 1 < BLOCK * total + BLOCK;
  }

  /** The bytes of blocks from..end-1, in order. */
  function Blocks(blob: Text, from: nat, end: nat): Text
    requires 0 < |blob| <= MAX_SIZE && from <= end <= TotalBlocks(|blob|)
    decreases end - from
  {
    if from == end then []
    else
      BlockBounds(|blob|, from);
      blob[Offset(from)..Offset(from) + BlockSize(|blob|, TotalBlocks(|blob|), from)] + Blocks(blob, from + 1, end)
  }

  /** Blocks s..total-1 tile the file from s * BLOCK to its end, for every start. */
  lemma {:induction false} BlocksTile(blob: Text, from: nat)
    requires 0 < |blob| <= MAX_SIZE && from < TotalBlocks(|blob|)
    ensures Offset(from) < |blob|
    ensures Blocks(blob, from, TotalBlocks(|blob|)) == blob[Offset(from)..]
    decreases TotalBlocks(|blob|) - from
  {
    var total := TotalBlocks(|blob|);
    BlockBounds(|blob|, from);
    if from + 1 < total {
      BlocksTile(blob, from + 1);
      assert blob[Offset(from)..Offset(from + 1)] + blob[Offset(from + 1)..] == blob[Offset(from)..];
    } else {
      assert Blocks(blob, total, total) == [];
    }
  }

  lemma SomeBlocks(fileSize: nat)
    requires 0 < fileSize <= MAX_SIZE
    ensures TotalBlocks(fileSize) > 0
  {
    TotalBlocksIff(fileSize);
  }

  /** Where block `k` starts in the file; the end of the file behind the last one. */
  function At(blob: Text, k: nat): (n: nat)
    ensures n <= |blob|
  {
    Min(Offset(k), |blob|)
  }

  lemma BlockIs(blob: Text, k: nat)
    requires 0 < |blob| <= MAX_SIZE && k < TotalBlocks(|blob|)
    ensures At(blob, k) == Offset(k) < At(blob, k + 1)
    ensures At(blob, k + 1) == Offset(k) + BlockSize(|blob|, TotalBlocks(|blob|), k)
    ensures k + 1 == TotalBlocks(|blob|) ==> At(blob, k + 1) == |blob|
  {
    TotalBlocksIff(|blob|);
    BlockBounds(|blob|, k);
  }

  /** Blocks from..end-1 are the bytes of the file between their places. */
  lemma {:induction false} BlocksAre(blob: Text, from: nat, end: nat)
    requires 0 < |blob| <= MAX_SIZE && from <= end <= TotalBlocks(|blob|)
    ensures At(blob, from) <= At(blob, end) && Blocks(blob, from, end) == blob[At(blob, from)..At(blob, end)]
    decreases end - from
  {
    hide At, BlockSize, TotalBlocks;
    if from < end {
      BlockIs(blob, from);
      BlocksAre(blob, from + 1, end);
      var mid := At(blob, from + 1);
      assert blob[At(blob, from)..mid] + blob[mid..At(blob, end)] == blob[At(blob, from)..At(blob, end)];
    }
  }

  /* ---------- transfer progress ---------- */

  datatype Record = Record(sequence: int, total: int, completed: bool)

  /** The transfer record of one entry, if any, and the indices of the blocks handed to the client so
      far, over all downloads of the entry. */
  datatype Transfer = Transfer(record: Option<Record>, sent: seq<int>)

  /** What goes right in one download: the read of the start sequence; the info packet; for each block
      tried, the send and the update behind it (a send that is not listed fails); the final read; the
      completing update. */
  datatype Fate = Fate(startRead: bool, info: bool, blocks: seq<(bool, bool)>, finalRead: bool, completes: bool)

  function StartOf(t: Transfer, read: bool): int {
    if read && t.record.Some? then t.record.value.sequence else 0
  }

  /** dao_create_transfer_record rejects a file id that is not positive, and gets passes 0. */
  function CreateRecord(t: Transfer, fileId: int, total: int, up: bool): Transfer {
    if fileId <= 0 || total <= 0 || !up then t else t.(record := Some(Record(0, total, false)))
  }

  function Updated(t: Transfer, sequence: int): Transfer {
    if t.record.Some? then t.(record := Some(t.record.value.(sequence := sequence))) else t
  }

  function SendFrom(t: Transfer, i: int, total: int, blocks: seq<(bool, bool)>): Transfer
    decreases total - i
  {
    if i >= total || blocks == [] || !blocks[0].0 then t
    else
      var delivered := t.(sent := t.sent + [i]);
      SendFrom(if blocks[0].1 then Updated(delivered, i + 1) else delivered, i + 1, total, blocks[1..])
  }

  function Finish(t: Transfer, total: int, fate: Fate): Transfer {
    if fate.finalRead && t.record.Some? && t.record.value.sequence == total && fate.completes
    then t.(record := Some(t.record.value.(completed := true))) else t
  }

  function Download(t: Transfer, total: int, fate: Fate): Transfer {
    var t0 := CreateRecord(t, 0, total, true);
    if !fate.info then t0 else Finish(SendFrom(t0, StartOf(t0, fate.startRead), total, fate.blocks), total, fate)
  }

  /** Blocks 0..n-1 have all been handed over. */
  predicate Covered(sent: seq<int>, n: int) {
    forall i :: 0 <= i < n ==> i in sent
  }

  /** The stored sequence does not run ahead of what was delivered, and 'completed' means all of it. */
  predicate NeverAhead(t: Transfer, total: int) {
    t.record.Some? ==>
      && t.record.value.sequence >= 0
      && Covered(t.sent, t.record.value.sequence)
      && (t.record.value.completed ==> Covered(t.sent, total))
  }

  lemma {:induction false} SendFromNeverAhead(t: Transfer, i: int, total: int, blocks: seq<(bool, bool)>)
    requires NeverAhead(t, total) && i >= 0 && Covered(t.sent, i)
    ensures NeverAhead(SendFrom(t, i, total, blocks), total)
    decreases total - i
  {
    if i < total && blocks != [] && blocks[0].0 {
      var delivered := t.(sent := t.sent + [i]);
      assert forall k :: k in t.sent ==> k in delivered.sent;
      assert delivered.sent[|t.sent|] == i;
      assert Covered(delivered.sent, i + 1);
      SendFromNeverAhead(if blocks[0].1 then Updated(delivered, i + 1) else delivered, i + 1, total, blocks[1..]);
    }
  }

  lemma DownloadNeverAhead(t: Transfer, total: int, fate: Fate)
    requires NeverAhead(t, total)
    ensures NeverAhead(Download(t, total, fate), total)
  {
    SendFromNeverAhead(t, StartOf(t, fate.startRead), total, fate.blocks);
  }

  function Downloads(t: Transfer, total: int, fates: seq<Fate>): Transfer
    decreases |fates|
  {
    if fates == [] then t else Downloads(Download(t, total, fates[0]), total, fates[1..])
  }

  /** Over any number of downloads with any mix of failed reads, sends and updates. */
  lemma {:induction false} ProgressNeverRunsAhead(t: Transfer, total: int, fates: seq<Fate>)
    requires NeverAhead(t, total)
    ensures NeverAhead(Downloads(t, total, fates), total)
    decreases |fates|
  {
    if fates != [] {
      DownloadNeverAhead(t, total, fates[0]);
      ProgressNeverRunsAhead(Download(t, total, fates[0]), total, fates[1..]);
    }
  }

  /* ---------- exactly what one download does ---------- */

  /** How many blocks go out when there are `room` to send: up to the first send that fails. */
  function Going(blocks: seq<(bool, bool)>, room: int): (n: nat)
    ensures n <= |blocks| && (n > 0 ==> n <= room)
    ensures forall k :: 0 <= k < n ==> blocks[k].0
    ensures n < |blocks| && n < room ==> !blocks[n].0
  {
    if room <= 0 || blocks == [] || !blocks[0].0 then 0 else 1 + Going(blocks[1..], room - 1)
  }

  /** How many of the first `n` blocks the record knows of: up to the last whose update went through. */
  function Known(blocks: seq<(bool, bool)>, n: nat): (k: nat)
    requires n <= |blocks|
    ensures k <= n
    ensures k > 0 ==> blocks[k - 1].1
    ensures forall j :: k <= j < n ==> !blocks[j].1
  {
    if n == 0 || blocks[n - 1].1 then n else Known(blocks, n - 1)
  }

  function Run(i: int, n: nat): (r: seq<int>)
    ensures |r| == n && forall k :: 0 <= k < n ==> r[k] == i + k
  {
    seq(n, k => i + k)
  }

  /** The stored sequence after a loop from `i` that stored `known` of its blocks. */
  function Resumed(record: Option<Record>, i: int, known: nat): Option<Record> {
    if record.None? || known == 0 then record else Some(record.value.(sequence := i + known))
  }

  lemma KnownTail(blocks: seq<(bool, bool)>, n: nat)
    requires 0 < n <= |blocks|
    ensures var k := Known(blocks[1..], n - 1);
      Known(blocks, n) == if k > 0 then k + 1 else if blocks[0].1 then 1 else 0
  {
    var k, rest := Known(blocks, n), blocks[1..];
    assert forall j :: 1 <= j < |blocks| ==> blocks[j] == rest[j - 1];
    assert forall j :: 0 <= j < n - 1 ==> rest[j] == blocks[j + 1];
    if Known(rest, n - 1) > 0 { assert rest[Known(rest, n - 1) - 1].1; }
  }

  lemma OneMoreRun(sent: seq<int>, i: int, n: nat)
    ensures sent + [i] + Run(i + 1, n) == sent + Run(i, n + 1)
    ensures sent + Run(i, 0) == sent
  {
    assert [i] + Run(i + 1, n) == Run(i, n + 1);
  }

  /** The loop over the blocks, with a record or without: the blocks i, i + 1, .. go out up to the first
      send that fails, and a record ends at the last update that went through. */
  lemma {:induction false} SendFromExactly(t: Transfer, i: int, total: int, blocks: seq<(bool, bool)>)
    ensures var n := Going(blocks, total - i);
      SendFrom(t, i, total, blocks) == Transfer(Resumed(t.record, i, Known(blocks, n)), t.sent + Run(i, n))
    decreases total - i
  {
    hide Run, Known;
    if i < total && blocks != [] && blocks[0].0 {
      var delivered := t.(sent := t.sent + [i]);
      var n := Going(blocks[1..], total - i - 1);
      SendFromExactly(if blocks[0].1 then Updated(delivered, i + 1) else delivered, i + 1, total, blocks[1..]);
      KnownTail(blocks, n + 1);
      OneMoreRun(t.sent, i, n);
    } else {
      OneMoreRun(t.sent, i, 0);
    }
  }

  /** How many blocks one download hands over. */
  function Handed(t: Transfer, total: int, fate: Fate): (n: nat)
    ensures n > 0 ==> n <= total - StartOf(t, fate.startRead)
    ensures fate.info && Unhindered(fate, total - StartOf(t, fate.startRead)) && StartOf(t, fate.startRead) <= total ==>
      StartOf(t, fate.startRead) + n == total
  {
    if fate.info then Going(fate.blocks, total - StartOf(t, fate.startRead)) else 0
  }

  /** The next `n` sends work. */
  predicate Unhindered(fate: Fate, n: int) {
    n <= |fate.blocks| && forall k :: 0 <= k < n ==> fate.blocks[k].0
  }

  /** A start that lies in the file. */
  predicate StartsInside(t: Transfer, total: int, fate: Fate) {
    0 <= StartOf(t, fate.startRead) <= total
  }

  /** The bytes one download hands over. */
  function Delivery(blob: Text, t: Transfer, fate: Fate): Text
    requires 0 < |blob| <= MAX_SIZE && StartsInside(t, TotalBlocks(|blob|), fate)
  {
    var start := StartOf(t, fate.startRead);
    Blocks(blob, start, start + Handed(t, TotalBlocks(|blob|), fate))
  }

  /** They are a stretch of the file from the start block on: all the rest of it exactly when the info
      packet and every send work, or nothing was left. */
  lemma DeliveryIs(blob: Text, t: Transfer, fate: Fate)
    requires 0 < |blob| <= MAX_SIZE && StartsInside(t, TotalBlocks(|blob|), fate)
    ensures var start := StartOf(t, fate.startRead);
            var rest := blob[At(blob, start)..];
            var total := TotalBlocks(|blob|);
      && Delivery(blob, t, fate) <= rest
      && (Delivery(blob, t, fate) == rest <==> start == total || (fate.info && Unhindered(fate, total - start)))
      && (start == 0 ==> rest == blob)
  {
    hide Blocks, TotalBlocks, At;
    var start, total := StartOf(t, fate.startRead), TotalBlocks(|blob|);
    var n := Handed(t, total, fate);
    BlocksAre(blob, start, start + n);
    AtEndIff(blob, start + n);
    assert n == 0 || fate.info;
    assert start + n == total <==> start == total || (fate.info && Unhindered(fate, total - start));
    PartIsRest(blob, At(blob, start), At(blob, start + n));
  }

  lemma AtEndIff(blob: Text, k: nat)
    requires 0 < |blob| <= MAX_SIZE && k <= TotalBlocks(|blob|)
    ensures At(blob, k) == |blob| <==> k == TotalBlocks(|blob|)
    ensures At(blob, 0) == 0
  {
    TotalBlocksIff(|blob|);
  }

  lemma PartIsRest(blob: Text, a: nat, b: nat)
    requires a <= b <= |blob|
    ensures blob[a..b] <= blob[a..] && (blob[a..b] == blob[a..] <==> b == |blob|)
    ensures a == 0 ==> blob[a..] == blob
  {
  }

  /** One whole download, with a record or without. */
  lemma DownloadExactly(t: Transfer, total: int, fate: Fate)
    ensures var start := StartOf(t, fate.startRead);
            var n := Handed(t, total, fate);
            var d := Download(t, total, fate);
      && d.sent == t.sent + Run(start, n)
      && (d.record.Some? <==> t.record.Some?)
      && (d.record.Some? ==> d.record.value.sequence == Resumed(t.record, start, Known(fate.blocks, n)).value.sequence)
      && (d.record.Some? ==> d.record.value.total == t.record.value.total)
  {
    SendFromExactly(t, StartOf(t, fate.startRead), total, fate.blocks);
    OneMoreRun(t.sent, StartOf(t, fate.startRead), 0);
  }

  /** The next `n` blocks all go out, and the update behind the last one goes through. */
  predicate FullySent(blocks: seq<(bool, bool)>, n: int) {
    && 0 < n <= |blocks|
    && (forall k :: 0 <= k < n ==> blocks[k].0)
    && blocks[n - 1].1
  }

  /** No update goes through behind a block that goes out. */
  predicate NothingStored(blocks: seq<(bool, bool)>, n: int) {
    forall k :: 0 <= k < Going(blocks, n) ==> !blocks[k].1
  }

  /** Where the stored sequence ends: at the block count exactly when everything from the start on was
      sent and its last update stored, or when it was there before and nothing was stored. */
  lemma EndsAtTotalIff(t: Transfer, i: int, total: int, blocks: seq<(bool, bool)>)
    requires t.record.Some?
    ensures var r := SendFrom(t, i, total, blocks).record;
      && r.Some? && r.value.completed == t.record.value.completed
      && (r.value.sequence == total <==>
            FullySent(blocks, total - i) || (t.record.value.sequence == total && NothingStored(blocks, total - i)))
  {
    SendFromExactly(t, i, total, blocks);
    var n := Going(blocks, total - i);
    var k := Known(blocks, n);
    if k > 0 { assert blocks[k - 1].1; }
  }

  /** One download leaves the record marked complete exactly when it was already, or the info packet and
      both closing queries go through and either every block from the start on is sent and the last
      update stored, or the stored sequence was at the end and no update moved it. */
  lemma CompletedIff(t: Transfer, total: int, fate: Fate)
    requires t.record.Some?
    ensures var r := Download(t, total, fate).record;
            var left := total - StartOf(t, fate.startRead);
      r.Some? && (r.value.completed <==>
        || t.record.value.completed
        || (fate.info && fate.finalRead && fate.completes
            && (FullySent(fate.blocks, left) || (t.record.value.sequence == total && NothingStored(fate.blocks, left)))))
  {
    EndsAtTotalIff(t, StartOf(t, fate.startRead), total, fate.blocks);
  }

  /* ---------- several sessions downloading one entry ---------- */

  /** A session between its start and its last query: it goes on with block `next`, or has block
      `next - 1` sent and not stored yet, or has seen the block count in the record. */
  datatype Reader = Resting | Sending(next: int) | Storing(next: int) | Completing

  datatype Shared = Shared(transfer: Transfer, readers: seq<Reader>)

  datatype Step =
    | Begin(k: nat, read: bool)
    | Send(k: nat)
    | Store(k: nat, up: bool)
    | Check(k: nat)
    | Complete(k: nat, up: bool)
    | Leave(k: nat)

  predicate Enabled(s: Shared, total: int, step: Step) {
    && step.k < |s.readers|
    && var r := s.readers[step.k];
       match step
       case Begin(_, _) => r.Resting?
       case Send(_) => r.Sending? && r.next < total
       case Store(_, _) => r.Storing?
       case Check(_) => r.Sending? && s.transfer.record.Some? && s.transfer.record.value.sequence == total
       case Complete(_, _) => r.Completing?
       case Leave(_) => !r.Resting?
  }

  function Next(s: Shared, total: int, step: Step): Shared
    requires Enabled(s, total, step)
  {
    var t, r := s.transfer, s.readers[step.k];
    match step
    case Begin(k, read) => s.(readers := s.readers[k := Sending(StartOf(t, read))])
    case Send(k) => Shared(t.(sent := t.sent + [r.next]), s.readers[k := Storing(r.next + 1)])
    case Store(k, up) => Shared(if up then Updated(t, r.next) else t, s.readers[k := Sending(r.next)])
    case Check(k) => s.(readers := s.readers[k := Completing])
    case Complete(k, up) =>
      Shared(if up && t.record.Some? then t.(record := Some(t.record.value.(completed := true))) else t, s.readers[k := Resting])
    case Leave(k) => s.(readers := s.readers[k := Resting])
  }

  /** What each session rests on: the blocks before its own are out. */
  predicate ReaderOk(sent: seq<int>, total: int, r: Reader) {
    match r
    case Resting => true
    case Sending(next) => next >= 0 && Covered(sent, next)
    case Storing(next) => next >= 0 && Covered(sent, next)
    case Completing => Covered(sent, total)
  }

  predicate SharedOk(s: Shared, total: int) {
    NeverAhead(s.transfer, total) && forall k :: 0 <= k < |s.readers| ==> ReaderOk(s.transfer.sent, total, s.readers[k])
  }

  lemma CoveredMore(sent: seq<int>, i: int)
    ensures forall n :: Covered(sent, n) ==> Covered(sent + [i], n)
    ensures Covered(sent, i) ==> Covered(sent + [i], i + 1)
  {
    var more := sent + [i];
    assert more[|sent|] == i;
    assert forall k :: k in sent ==> k in more;
  }

  lemma StepKeepsShared(s: Shared, total: int, step: Step)
    requires SharedOk(s, total) && Enabled(s, total, step)
    ensures SharedOk(Next(s, total, step), total)
  {
    var n, sent, r := Next(s, total, step), s.transfer.sent, s.readers[step.k];
    assert ReaderOk(sent, total, r);
    if step.Send? {
      CoveredMore(sent, r.next);
      forall k | 0 <= k < |n.readers| && k != step.k ensures ReaderOk(n.transfer.sent, total, n.readers[k]) {
        assert ReaderOk(sent, total, s.readers[k]);
      }
    }
  }

  predicate Feasible(s: Shared, total: int, steps: seq<Step>)
    decreases |steps|
  {
    steps == [] || (Enabled(s, total, steps[0]) && Feasible(Next(s, total, steps[0]), total, steps[1..]))
  }

  function After(s: Shared, total: int, steps: seq<Step>): Shared
    requires Feasible(s, total, steps)
    decreases |steps|
  {
    if steps == [] then s else After(Next(s, total, steps[0]), total, steps[1..])
  }

  /** The same for any interleaving of any number of sessions downloading the entry. */
  lemma {:induction false} SharedNeverRunsAhead(s: Shared, total: int, steps: seq<Step>)
    requires SharedOk(s, total) && Feasible(s, total, steps)
    ensures NeverAhead(After(s, total, steps).transfer, total)
    decreases |steps|
  {
    if steps != [] {
      StepKeepsShared(s, total, steps[0]);
      SharedNeverRunsAhead(Next(s, total, steps[0]), total, steps[1..]);
    }
  }

  /** As the code stands no record is ever created, so every download starts at block 0 and none is ever
      marked complete, even when every block arrives. */
  lemma {:induction false} NoRecordIsEverMade(t: Transfer, total: int, fates: seq<Fate>)
    requires t.record == None
    ensures Downloads(t, total, fates).record == None
    ensures forall read :: StartOf(Downloads(t, total, fates), read) == 0
    decreases |fates|
  {
    if fates != [] {
      NoRecordWhileSending(t, StartOf(t, fates[0].startRead), total, fates[0].blocks);
      NoRecordIsEverMade(Download(t, total, fates[0]), total, fates[1..]);
    }
  }

  lemma {:induction false} NoRecordWhileSending(t: Transfer, i: int, total: int, blocks: seq<(bool, bool)>)
    requires t.record == None
    ensures SendFrom(t, i, total, blocks).record == None
    decreases total - i
  {
    if i < total && blocks != [] && blocks[0].0 {
      NoRecordWhileSending(t.(sent := t.sent + [i]), i + 1, total, blocks[1..]);
    }
  }

  /* ---------- the block loop ---------- */

  datatype Block = Block(index: int, offset: nat, data: Text)

  /** What the client and the transfer table see of one entry. */
  class Channel {
    var record: Option<Record>
    var blocks: seq<Block>

    ghost function View(): Transfer
      reads this
    {
      Transfer(record, Indices(blocks))
    }

    constructor (record: Option<Record>)
      ensures View() == Transfer(record, [])
    {
      this.record, blocks := record, [];
    }
  }

  function Indices(blocks: seq<Block>): (r: seq<int>)
    ensures |r| == |blocks| && forall k :: 0 <= k < |r| ==> r[k] == blocks[k].index
  {
    seq(|blocks|, k requires 0 <= k < |blocks| => blocks[k].index)
  }

  function DataOf(blocks: seq<Block>): Text {
    if blocks == [] then [] else DataOf(blocks[..|blocks| - 1]) + blocks[|blocks| - 1].data
  }

  lemma OneMoreBlock(blocks: seq<Block>, b: Block)
    ensures Indices(blocks + [b]) == Indices(blocks) + [b.index]
    ensures DataOf(blocks + [b]) == DataOf(blocks) + b.data
  {
    assert (blocks + [b])[..|blocks|] == blocks;
  }

  /** send_block: seek, read exactly `size` bytes, send. `sends` tells whether the send goes through. */
  method SendBlock(ch: Channel, blob: Text, i: int, offset: nat, size: nat, sends: bool) returns (r: int)
    modifies ch`blocks
    ensures r == 0 <==> offset + size <= |blob| && sends
    ensures r == 0 ==> ch.blocks == old(ch.blocks) + [Block(i, offset, blob[offset..offset + size])]
    ensures r != 0 ==> ch.blocks == old(ch.blocks)
  {
    if offset + size > |blob| || !sends {
      return -1;
    }
    ch.blocks := ch.blocks + [Block(i, offset, blob[offset..offset + size])];
    return 0;
  }

  /** A block carries the file's bytes at its place, and that place as its offset. */
  predicate InPlace(blob: Text, b: Block) {
    b.index >= 0 && b.offset == Offset(b.index) && b.offset + |b.data| <= |blob| && b.data == blob[b.offset..b.offset + |b.data|]
  }

  predicate AllInPlace(blob: Text, blocks: seq<Block>, from: nat) {
    forall k :: from <= k < |blocks| ==> InPlace(blob, blocks[k])
  }

  lemma OneMoreInPlace(blob: Text, blocks: seq<Block>, from: nat, i: nat, size: nat)
    requires AllInPlace(blob, blocks, from) && Offset(i) + size <= |blob|
    ensures AllInPlace(blob, blocks + [Block(i, Offset(i), blob[Offset(i)..Offset(i) + size])], from)
  {
  }

  lemma NoneInPlace(blob: Text, blocks: seq<Block>)
    ensures AllInPlace(blob, blocks, |blocks|)
  {
  }

  lemma NoBlocks(blob: Text, i: nat)
    requires 0 < |blob| <= MAX_SIZE && i <= TotalBlocks(|blob|)
    ensures Blocks(blob, i, i) == []
  {
  }

  /** The loop over the blocks: the client is sent consecutive blocks from `start`, with the file's bytes
      at their places. */
  method SendBlocks(ch: Channel, blob: Text, start: nat, fates: seq<(bool, bool)>) returns (next: nat)
    requires 0 < |blob| <= MAX_SIZE && start <= TotalBlocks(|blob|)
    modifies ch
    ensures ch.View() == SendFrom(old(ch.View()), start, TotalBlocks(|blob|), fates)
    ensures next == start + Going(fates, TotalBlocks(|blob|) - start) <= TotalBlocks(|blob|)
    ensures |ch.blocks| == |old(ch.blocks)| + next - start
    ensures AllInPlace(blob, ch.blocks, |old(ch.blocks)|)
    ensures DataOf(ch.blocks) == DataOf(old(ch.blocks)) + Blocks(blob, start, next)
  {
    hide TotalBlocks, Indices, DataOf, Blocks, Resumed, Known, AllInPlace;
    NoneInPlace(blob, ch.blocks);
    var total := TotalBlocks(|blob|);
    SendFromExactly(ch.View(), start, total, fates);
    ghost var before := DataOf(ch.blocks);
    ghost var goal := SendFrom(ch.View(), start, total, fates);
    var left := fates;
    next := start;
    NoBlocks(blob, start);
    while next < total
      invariant start <= next <= total && |ch.blocks| == |old(ch.blocks)| + next - start
      invariant SendFrom(ch.View(), next, total, left) == goal
      invariant DataOf(ch.blocks) == before + Blocks(blob, start, next)
      invariant AllInPlace(blob, ch.blocks, |old(ch.blocks)|)
    {
      var offset := next * BLOCK;
      var size := BLOCK;
      if next == total - 1 {
        size := ToInt32(|blob| - offset);
      }
      BlocksAppend(blob, start, next);
      ghost var had, was := ch.blocks, ch.View();
      var r := SendBlock(ch, blob, next, offset, size, left != [] && left[0].0);
      if r != 0 {
        break;
      }
      OneMoreInPlace(blob, had, |old(ch.blocks)|, next, size);
      OneMoreBlock(had, Block(next, offset, blob[offset..offset + size]));
      Associative(before, Blocks(blob, start, next), blob[offset..offset + size]);
      if left[0].1 {
        if ch.record.Some? {
          ch.record := Some(ch.record.value.(sequence := next + 1));
        }
      }
      left := left[1..];
      next := next + 1;
    }
  }

  lemma StartIsInside(t: Transfer, total: nat, fate: Fate)
    requires NeverAhead(t, total) && (t.record.Some? ==> t.record.value.sequence <= total)
    ensures StartsInside(t, total, fate)
  {
  }

  /** handle_gets from the transfer record on, for a stored file that has its recorded size. */
  method HandleGets(ch: Channel, blob: Text, fate: Fate) returns (start: nat, next: nat)
    requires 0 < |blob| <= MAX_SIZE && NeverAhead(ch.View(), TotalBlocks(|blob|))
    requires ch.record.Some? ==> ch.record.value.sequence <= TotalBlocks(|blob|)
    modifies ch
    ensures ch.View() == Download(old(ch.View()), TotalBlocks(|blob|), fate)
    ensures start == StartOf(old(ch.View()), fate.startRead) <= TotalBlocks(|blob|)
    ensures next == start + Handed(old(ch.View()), TotalBlocks(|blob|), fate)
    ensures |ch.blocks| == |old(ch.blocks)| + next - start
    ensures AllInPlace(blob, ch.blocks, |old(ch.blocks)|)
    ensures DataOf(ch.blocks) == DataOf(old(ch.blocks)) + Delivery(blob, old(ch.View()), fate)
    ensures fate.info && Unhindered(fate, TotalBlocks(|blob|) - start) ==>
      next == TotalBlocks(|blob|) && DataOf(ch.blocks) == DataOf(old(ch.blocks)) + blob[At(blob, start)..]
    ensures NeverAhead(ch.View(), TotalBlocks(|blob|))
  {
    hide TotalBlocks, Indices, DataOf, Blocks, At, NeverAhead, Covered, Going, AllInPlace, SendFrom, Unhindered;
    NoneInPlace(blob, ch.blocks);
    var total := TotalBlocks(|blob|);
    SomeBlocks(|blob|);
    StartIsInside(ch.View(), total, fate);
    DeliveryIs(blob, ch.View(), fate);
    DownloadNeverAhead(ch.View(), total, fate);
    start := 0;
    if fate.startRead && ch.record.Some? {
      start := ch.record.value.sequence;
    }
    if !fate.info {
      NoBlocks(blob, start);
      next := start;
      return;
    }
    next := SendBlocks(ch, blob, start, fate.blocks);
    if fate.finalRead && ch.record.Some? && ch.record.value.sequence == total {
      if fate.completes {
        ch.record := Some(ch.record.value.(completed := true));
      }
    }
  }

  lemma {:induction false} BlocksAppend(blob: Text, from: nat, end: nat)
    requires 0 < |blob| <= MAX_SIZE && from <= end < TotalBlocks(|blob|)
    ensures Offset(end) <= Offset(end) + BlockSize(|blob|, TotalBlocks(|blob|), end) <= |blob|
    ensures Blocks(blob, from, end + 1)
         == Blocks(blob, from, end) + blob[Offset(end)..Offset(end) + BlockSize(|blob|, TotalBlocks(|blob|), end)]
    decreases end - from
  {
    BlockBounds(|blob|, end);
    if end + 1 < TotalBlocks(|blob|) { BlockBounds(|blob|, end + 1); }
    BoundInside(|blob|, end);
    if from == end {
      assert Blocks(blob, end + 1, end + 1) == [];
    } else {
      BlocksAppend(blob, from + 1, end);
    }
  }

  lemma BoundInside(fileSize: nat, i: nat)
    requires 0 < fileSize <= MAX_SIZE && i < TotalBlocks(fileSize)
    ensures Offset(i) + BlockSize(fileSize, TotalBlocks(fileSize), i) <= fileSize
  {
    TotalBlocksIff(fileSize);
    BlockBounds(fileSize, i);
  }
}
