/** The content-keyed store: `files` rows, blobs in the storage directory, and the uploads in progress,
    step by step (src/server/file_transfer.c lines 284-385, src/server/dao_vfs.c lines 550-662). */
module Store {
  import opened Bytes
  import opened Vfs
  import D = Download

  datatype FileRow = FileRow(hash: Text, size: nat)

  /** Where a worker is in handle_puts. `content` is what the client announced and is sending. */
  datatype Upload =
    | Idle
    | Checked(hash: Text, content: Text)                  // no row was found for the hash
    | Opened(hash: Text, content: Text)                   // O_CREAT | O_TRUNC done
    | Receiving(hash: Text, content: Text, got: nat)      // extended, `got` bytes written
    | Received(hash: Text, content: Text)                 // all bytes written, no row yet
    | Recorded(hash: Text, content: Text, fileId: nat)    // a row for the hash, no entry yet

  /** A hash is used as a file name, and it is the client that sends it. `place` is which file a name
      opens, so two hashes with one place share a blob; every result below holds whatever it is. */
  datatype State = State(
    place: Text -> Text,
    files: map<nat, FileRow>,
    nextFile: nat,
    blobs: map<Text, Text>,
    uploads: seq<Upload>,
    table: Table)

  const HASH_LENGTH := 64

  /** The test that handle_puts makes. */
  predicate HashText(hash: Text) {
    |hash| == HASH_LENGTH && NUL !in hash
  }

  datatype Step =
    | Begin(u: nat, hash: Text, content: Text)
    | Instant(u: nat, hash: Text, content: Text, fileId: nat)
    | Open(u: nat)
    | Extend(u: nat)
    | Write(u: nat, n: nat)
    | Record(u: nat, up: bool)
    | Enter(u: nat, user: int, dir: int, name: Text, up: bool)
    | Abort(u: nat)
    | Other(table: Table)

  /** A row has the hash. */
  predicate Stored(s: State, hash: Text) {
    exists id :: id in s.files && s.files[id].hash == hash
  }

  /** A row's blob is in this place. */
  predicate StoredAt(s: State, place: Text) {
    exists id :: id in s.files && s.place(s.files[id].hash) == place
  }

  predicate Active(up: Upload) {
    up.Opened? || up.Receiving? || up.Received?
  }

  function Resized(blob: Text, size: nat): Text {
    if |blob| >= size then blob[..size] else blob + Zeros(size - |blob|)
  }

  function Overwritten(blob: Text, at: nat, bytes: Text): Text {
    if at + |bytes| <= |blob| then blob[..at] + bytes + blob[at + |bytes|..] else blob
  }

  /** `Begin` is the lookup that found no row, or failed; `Instant` the lookup that found one. The table
      may change by other sessions' commands, which keep its shape and ownership. */
  ghost predicate Enabled(s: State, step: Step) {
    match step
    case Other(t) => Shape(t) && OwnedByParent(t) && Grows(s.table, t)
    case _ => step.u < |s.uploads| && EnabledAt(s, step, s.uploads[step.u])
  }

  ghost predicate EnabledAt(s: State, step: Step, up: Upload)
    requires !step.Other?
  {
    match step
    case Begin(_, hash, content) => up == Idle && HashText(hash) && content != []
    case Instant(_, hash, content, fileId) => up == Idle && HashText(hash) && content != [] && fileId in s.files && s.files[fileId].hash == hash
    case Open(_) => up.Checked?
    case Extend(_) => up.Opened? && s.place(up.hash) in s.blobs
    case Write(_, n) => up.Receiving? && 0 < n <= |up.content| - up.got && s.place(up.hash) in s.blobs
    case Record(_, _) => up.Received?
    case Enter(_, user, dir, name, _) =>
      && up.Recorded? && name != []
      && (dir > 0 ==> dir in s.table.rows && s.table.rows[dir].kind.Dir? && s.table.rows[dir].user == user)
    case Abort(_) => up != Idle
  }

  ghost function Next(s: State, step: Step): State
    requires Enabled(s, step)
  {
    match step
    case Other(t) => s.(table := t)
    case Begin(u, hash, content) => s.(uploads := s.uploads[u := Checked(hash, content)])
    case Instant(u, hash, content, fileId) => s.(uploads := s.uploads[u := Recorded(hash, content, fileId)])
    case Open(u) =>
      var up := s.uploads[u];
      s.(blobs := s.blobs[s.place(up.hash) := []], uploads := s.uploads[u := Opened(up.hash, up.content)])
    case Extend(u) =>
      var up := s.uploads[u];
      s.(blobs := s.blobs[s.place(up.hash) := Resized(s.blobs[s.place(up.hash)], |up.content|)],
         uploads := s.uploads[u := Receiving(up.hash, up.content, 0)])
    case Write(u, n) =>
      var up := s.uploads[u];
      var place := s.place(up.hash);
      s.(blobs := s.blobs[place := Overwritten(s.blobs[place], up.got, up.content[up.got..up.got + n])],
         uploads := s.uploads[u := if up.got + n == |up.content| then Received(up.hash, up.content) else up.(got := up.got + n)])
    case Record(u, up) =>
      var upl := s.uploads[u];
      if up && !Stored(s, upl.hash) then
        s.(files := s.files[s.nextFile := FileRow(upl.hash, |upl.content|)], nextFile := s.nextFile + 1,
           uploads := s.uploads[u := Recorded(upl.hash, upl.content, s.nextFile)])
      else s.(uploads := s.uploads[u := Idle])
    case Enter(u, user, dir, name, up) =>
      s.(table := InsertPath(s.table, user, dir, name, s.uploads[u].fileId, up).0, uploads := s.uploads[u := Idle])
    case Abort(u) => s.(uploads := s.uploads[u := Idle])
  }

  /* ---------- stored blobs are complete ---------- */

  ghost predicate RowComplete(s: State, id: nat)
    requires id in s.files
  {
    && s.files[id].size > 0
    && s.place(s.files[id].hash) in s.blobs && |s.blobs[s.place(s.files[id].hash)]| == s.files[id].size
  }

  ghost predicate Complete(s: State) {
    forall id :: id in s.files ==> RowComplete(s, id)
  }

  /** Opening truncates: it keeps every row's blob complete exactly when no row's blob is in that place. */
  lemma OpenKeepsCompleteIff(s: State, u: nat)
    requires Complete(s) && Enabled(s, Open(u))
    ensures Complete(Next(s, Open(u))) <==> !StoredAt(s, s.place(s.uploads[u].hash))
  {
    var n := Next(s, Open(u));
    if id :| id in s.files && s.place(s.files[id].hash) == s.place(s.uploads[u].hash) {
      assert !RowComplete(n, id);
    } else {
      forall id | id in n.files ensures RowComplete(n, id) {
        assert RowComplete(s, id);
      }
    }
  }

  /** What serializing the uploads of one file means here: a worker opens a place only while no row's blob
      and no other upload under way is in it. */
  ghost predicate Serialized(s: State, step: Step)
    requires Enabled(s, step)
  {
    step.Open? ==>
      && !StoredAt(s, s.place(s.uploads[step.u].hash))
      && forall v :: 0 <= v < |s.uploads| && Active(s.uploads[v]) ==> s.place(s.uploads[v].hash) != s.place(s.uploads[step.u].hash)
  }

  ghost predicate FileIdsOk(s: State) {
    && s.nextFile > 0
    && (forall id :: id in s.files ==> 0 < id < s.nextFile)
    && (forall a, b :: a in s.files && b in s.files && s.files[a].hash == s.files[b].hash ==> a == b)
  }

  /** What the bytes in an active upload's place are. */
  ghost predicate UploadOk(s: State, up: Upload) {
    match up
    case Idle => true
    case Checked(_, content) => content != []
    case Opened(hash, content) => content != [] && Holds(s, hash, [])
    case Receiving(hash, content, got) => got < |content| && Holds(s, hash, content[..got] + Zeros(|content| - got))
    case Received(hash, content) => content != [] && Holds(s, hash, content)
    case Recorded(hash, content, fileId) => fileId in s.files && s.files[fileId].hash == hash
  }

  /** The place holds these bytes and no row's blob. */
  ghost predicate Holds(s: State, hash: Text, blob: Text) {
    !StoredAt(s, s.place(hash)) && s.place(hash) in s.blobs && s.blobs[s.place(hash)] == blob
  }

  ghost predicate Exclusive(place: Text -> Text, uploads: seq<Upload>) {
    forall u, v :: 0 <= u < v < |uploads| && Active(uploads[u]) && Active(uploads[v]) ==>
      place(uploads[u].hash) != place(uploads[v].hash)
  }

  ghost predicate Inv(s: State) {
    && FileIdsOk(s) && Complete(s) && Exclusive(s.place, s.uploads)
    && Shape(s.table) && OwnedByParent(s.table)
    && forall u :: 0 <= u < |s.uploads| ==> UploadOk(s, s.uploads[u])
  }

  /** The bytes of a row's blob. */
  ghost predicate Blob(s: State, id: nat, blob: Text) {
    id in s.files && s.place(s.files[id].hash) in s.blobs && s.blobs[s.place(s.files[id].hash)] == blob
  }

  /** Every row stays, with its blob. */
  ghost predicate LeavesStored(s: State, n: State) {
    && n.place == s.place
    && (forall id :: id in s.files ==> id in n.files && n.files[id] == s.files[id])
    && (forall id, blob :: Blob(s, id, blob) ==> Blob(n, id, blob))
  }

  lemma OneMoreChunk(content: Text, got: nat, n: nat)
    requires got + n <= |content|
    ensures Overwritten(content[..got] + Zeros(|content| - got), got, content[got..got + n])
         == content[..got + n] + Zeros(|content| - got - n)
    ensures got + n == |content| ==> content[..got + n] + Zeros(|content| - got - n) == content
  {
    var blob := content[..got] + Zeros(|content| - got);
    assert blob[..got] == content[..got];
    assert blob[got + n..] == Zeros(|content| - got - n);
    assert content[..got] + content[got..got + n] == content[..got + n];
  }

  /** Open, Extend and Write: one blob changes, one upload moves on. */
  lemma BlobStep(s: State, u: nat, blob: Text, up: Upload)
    requires Inv(s) && u < |s.uploads| && Active(up)
    requires !StoredAt(s, s.place(up.hash))
    requires forall v :: 0 <= v < |s.uploads| && v != u && Active(s.uploads[v]) ==> s.place(s.uploads[v].hash) != s.place(up.hash)
    requires UploadOk(s.(blobs := s.blobs[s.place(up.hash) := blob]), up)
    ensures var n := s.(blobs := s.blobs[s.place(up.hash) := blob], uploads := s.uploads[u := up]); Inv(n) && LeavesStored(s, n)
  {
    var n := s.(blobs := s.blobs[s.place(up.hash) := blob], uploads := s.uploads[u := up]);
    forall id | id in n.files ensures RowComplete(n, id) {
      assert RowComplete(s, id);
    }
    SameRows(s, n);
    forall v | 0 <= v < |n.uploads| ensures UploadOk(n, n.uploads[v]) {
      if v != u { assert UploadOk(s, s.uploads[v]); }
    }
  }

  lemma SameRows(s: State, n: State)
    requires n.files == s.files && n.place == s.place
    ensures forall place :: StoredAt(n, place) <==> StoredAt(s, place)
  {
    forall place ensures StoredAt(n, place) <==> StoredAt(s, place) {
      if StoredAt(n, place) {
        var id :| id in n.files && n.place(n.files[id].hash) == place;
        assert s.place(s.files[id].hash) == place;
      }
      if StoredAt(s, place) {
        var id :| id in s.files && s.place(s.files[id].hash) == place;
        assert n.place(n.files[id].hash) == place;
      }
    }
  }

  /** Begin, Instant, Abort, a failed Record: only this upload's place changes, and it becomes inactive. */
  lemma IdleStep(s: State, u: nat, up: Upload)
    requires Inv(s) && u < |s.uploads| && !Active(up) && UploadOk(s, up)
    ensures Inv(s.(uploads := s.uploads[u := up])) && LeavesStored(s, s.(uploads := s.uploads[u := up]))
  {
    var n := s.(uploads := s.uploads[u := up]);
    forall id | id in n.files ensures RowComplete(n, id) {
      assert RowComplete(s, id);
    }
    SameRows(s, n);
    forall v | 0 <= v < |n.uploads| ensures UploadOk(n, n.uploads[v]) {
      if v != u { assert UploadOk(s, s.uploads[v]); }
    }
  }

  lemma RecordUploads(s: State, u: nat)
    requires Inv(s) && Enabled(s, Record(u, true))
    ensures var n := Next(s, Record(u, true));
      Exclusive(n.place, n.uploads) && forall v :: 0 <= v < |n.uploads| ==> UploadOk(n, n.uploads[v])
  {
    hide Complete;
    var n, up := Next(s, Record(u, true)), s.uploads[u];
    forall place | StoredAt(n, place) && place != s.place(up.hash) ensures StoredAt(s, place) {
      var id :| id in n.files && n.place(n.files[id].hash) == place;
      assert id in s.files;
    }
    forall v | 0 <= v < |n.uploads| ensures UploadOk(n, n.uploads[v]) {
      assert UploadOk(s, s.uploads[v]);
      if v != u && Active(s.uploads[v]) { assert s.place(s.uploads[v].hash) != s.place(up.hash); }
    }
  }

  lemma RecordStep(s: State, u: nat)
    requires Inv(s) && Enabled(s, Record(u, true))
    ensures Inv(Next(s, Record(u, true))) && LeavesStored(s, Next(s, Record(u, true)))
  {
    hide Exclusive;
    var n, up := Next(s, Record(u, true)), s.uploads[u];
    assert UploadOk(s, up);
    RecordUploads(s, u);
    forall id | id in n.files ensures RowComplete(n, id) {
      if id != s.nextFile { assert RowComplete(s, id); }
    }
  }

  lemma TableStep(s: State, table: Table)
    requires Inv(s) && Shape(table) && OwnedByParent(table)
    ensures Inv(s.(table := table)) && LeavesStored(s, s.(table := table))
  {
    var n := s.(table := table);
    forall id | id in n.files ensures RowComplete(n, id) {
      assert RowComplete(s, id);
    }
    SameRows(s, n);
    forall v | 0 <= v < |n.uploads| ensures UploadOk(n, n.uploads[v]) {
      assert UploadOk(s, s.uploads[v]);
    }
  }

  lemma EnterTable(t: Table, user: int, dir: int, name: Text, fileId: int, up: bool)
    requires Shape(t) && OwnedByParent(t) && name != []
    requires dir > 0 ==> dir in t.rows && t.rows[dir].kind.Dir? && t.rows[dir].user == user
    ensures var n := InsertPath(t, user, dir, name, fileId, up).0; Shape(n) && OwnedByParent(n) && Grows(t, n)
  {
    if dir > 0 {
      InsertShape(t, Row(user, dir, name, File(fileId), false), up);
      var n := InsertPath(t, user, dir, name, fileId, up).0;
      forall id | id in n.rows && n.rows[id].parent != 0
        ensures n.rows[id].parent in n.rows && n.rows[n.rows[id].parent].user == n.rows[id].user
      {
        if id in t.rows { assert RowOk(t.rows, id) && Kept(t.rows[id], n.rows[id]); }
      }
    }
  }

  lemma OpenStep(s: State, step: Step)
    requires Inv(s) && Enabled(s, step) && Serialized(s, step) && step.Open?
    ensures Inv(Next(s, step)) && LeavesStored(s, Next(s, step))
  {
    var up := s.uploads[step.u];
    assert UploadOk(s, up);
    BlobStep(s, step.u, [], Opened(up.hash, up.content));
  }

  lemma ExtendStep(s: State, step: Step)
    requires Inv(s) && Enabled(s, step) && step.Extend?
    ensures Inv(Next(s, step)) && LeavesStored(s, Next(s, step))
  {
    var up := s.uploads[step.u];
    assert UploadOk(s, up);
    var blob := Resized(s.blobs[s.place(up.hash)], |up.content|);
    assert blob == up.content[..0] + Zeros(|up.content| - 0);
    BlobStep(s, step.u, blob, Receiving(up.hash, up.content, 0));
  }

  lemma WriteStep(s: State, step: Step)
    requires Inv(s) && Enabled(s, step) && step.Write?
    ensures Inv(Next(s, step)) && LeavesStored(s, Next(s, step))
  {
    hide Overwritten, Zeros, Complete, FileIdsOk, LeavesStored;
    var up := s.uploads[step.u];
    assert UploadOk(s, up);
    var blob := Overwritten(s.blobs[s.place(up.hash)], up.got, up.content[up.got..up.got + step.n]);
    OneMoreChunk(up.content, up.got, step.n);
    if up.got + step.n == |up.content| {
      BlobStep(s, step.u, blob, Received(up.hash, up.content));
    } else {
      BlobStep(s, step.u, blob, up.(got := up.got + step.n));
    }
  }

  lemma EnterStep(s: State, step: Step)
    requires Inv(s) && Enabled(s, step) && step.Enter?
    ensures Inv(Next(s, step)) && LeavesStored(s, Next(s, step)) && Grows(s.table, Next(s, step).table)
  {
    EnterTable(s.table, step.user, step.dir, step.name, s.uploads[step.u].fileId, step.up);
    var table := Next(s, step).table;
    TableStep(s, table);
    IdleStep(s.(table := table), step.u, Idle);
  }

  /** Serialized steps keep the invariant: every row's blob stays complete and unchanged, whatever the
      uploads in progress do, fail or repeat. */
  lemma StepKeepsInv(s: State, step: Step)
    requires Inv(s) && Enabled(s, step) && Serialized(s, step)
    ensures Inv(Next(s, step)) && LeavesStored(s, Next(s, step)) && Grows(s.table, Next(s, step).table)
  {
    hide UploadOk, RowComplete, LeavesStored, Exclusive, FileIdsOk;
    match step {
      case Other(t) => TableStep(s, t);
      case Begin(u, hash, content) =>
        Passive(s, Checked(hash, content));
        IdleStep(s, u, Checked(hash, content));
      case Instant(u, hash, content, fileId) =>
        Passive(s, Recorded(hash, content, fileId));
        IdleStep(s, u, Recorded(hash, content, fileId));
      case Abort(u) =>
        Passive(s, Idle);
        IdleStep(s, u, Idle);
      case Open(_) => OpenStep(s, step);
      case Extend(_) => ExtendStep(s, step);
      case Write(_, _) => WriteStep(s, step);
      case Record(u, up) =>
        if up {
          RecordStep(s, u);
        } else {
          Passive(s, Idle);
          IdleStep(s, u, Idle);
        }
      case Enter(_, _, _, _, _) => EnterStep(s, step);
    }
    assert step.Other? || step.Enter? || Next(s, step).table == s.table;
    GrowsItself(s.table);
  }

  lemma Passive(s: State, up: Upload)
    requires up == Idle || (up.Checked? && up.content != []) || (up.Recorded? && up.fileId in s.files && s.files[up.fileId].hash == up.hash)
    ensures UploadOk(s, up)
  {
  }

  ghost function NewStore(place: Text -> Text, workers: nat): State {
    State(place, map[], 1, map[], seq(workers, i => Idle), EMPTY)
  }

  /* ---------- whole runs ---------- */

  ghost predicate Feasible(s: State, steps: seq<Step>)
    decreases |steps|
  {
    steps == [] || (Enabled(s, steps[0]) && Serialized(s, steps[0]) && Feasible(Next(s, steps[0]), steps[1..]))
  }

  ghost function After(s: State, steps: seq<Step>): State
    requires Feasible(s, steps)
    decreases |steps|
  {
    if steps == [] then s else After(Next(s, steps[0]), steps[1..])
  }

  /** The condition on an open is exact: the invariant survives it only if it is serialized. */
  lemma OpenKeepsInvIff(s: State, u: nat)
    requires Inv(s) && Enabled(s, Open(u))
    ensures Inv(Next(s, Open(u))) <==> Serialized(s, Open(u))
  {
    var n, up := Next(s, Open(u)), s.uploads[u];
    assert UploadOk(s, up);
    if Serialized(s, Open(u)) {
      OpenStep(s, Open(u));
    } else if StoredAt(s, s.place(up.hash)) {
      SameRows(s, n);
      assert !UploadOk(n, n.uploads[u]);
    } else {
      var v :| 0 <= v < |s.uploads| && Active(s.uploads[v]) && s.place(s.uploads[v].hash) == s.place(up.hash);
      assert v != u && n.uploads[v] == s.uploads[v] && Active(n.uploads[u]);
      assert !Exclusive(n.place, n.uploads);
    }
  }

  /** Over every serialized run, a `files` row keeps its hash, its size and its complete blob for ever. */
  lemma {:induction false} StoredForEver(s: State, steps: seq<Step>, id: nat, blob: Text)
    requires Inv(s) && Feasible(s, steps) && Blob(s, id, blob)
    ensures var n := After(s, steps);
      && Inv(n) && Grows(s.table, n.table)
      && Blob(n, id, blob) && n.files[id] == s.files[id] && |blob| == s.files[id].size
    decreases |steps|
  {
    assert RowComplete(s, id);
    if steps != [] {
      var n := Next(s, steps[0]);
      StepKeepsInv(s, steps[0]);
      StoredForEver(n, steps[1..], id, blob);
      GrowsTransitive(s.table, n.table, After(n, steps[1..]).table);
    }
  }

  /* ---------- serializing by the hash text ---------- */

  /** The weaker discipline that goes by the hash itself: no row has it, and no other upload of it is under way. */
  ghost predicate SerializedByHash(s: State, u: nat)
    requires Enabled(s, Open(u))
  {
    && !Stored(s, s.uploads[u].hash)
    && forall v :: 0 <= v < |s.uploads| && Active(s.uploads[v]) ==> s.uploads[v].hash != s.uploads[u].hash
  }

  /** Another hash, of a row or of an upload under way, opens the same file. */
  ghost predicate Aliased(s: State, u: nat)
    requires u < |s.uploads| && s.uploads[u] != Idle
  {
    var hash := s.uploads[u].hash;
    || (exists id :: id in s.files && SharesPlace(s, s.files[id].hash, hash))
    || (exists v :: 0 <= v < |s.uploads| && Active(s.uploads[v]) && SharesPlace(s, s.uploads[v].hash, hash))
  }

  predicate SharesPlace(s: State, a: Text, b: Text) {
    a != b && s.place(a) == s.place(b)
  }

  /** It is enough exactly when no alias is about. */
  lemma ByHashKeepsInvIff(s: State, u: nat)
    requires Inv(s) && Enabled(s, Open(u)) && SerializedByHash(s, u)
    ensures Inv(Next(s, Open(u))) <==> !Aliased(s, u)
  {
    OpenKeepsInvIff(s, u);
    var hash := s.uploads[u].hash;
    if StoredAt(s, s.place(hash)) {
      var id :| id in s.files && s.place(s.files[id].hash) == s.place(hash);
      assert SharesPlace(s, s.files[id].hash, hash);
    } else if v :| 0 <= v < |s.uploads| && Active(s.uploads[v]) && s.place(s.uploads[v].hash) == s.place(hash) {
      assert SharesPlace(s, s.uploads[v].hash, hash);
    }
  }

  /** What a path below the storage directory opens, as far as slashes and "." components go. */
  function Resolved(name: Text): Text {
    if name != [] && name[0] == SLASH then Resolved(name[1..])
    else if |name| >= 2 && name[0] == DOT && name[1] == SLASH then Resolved(name[2..])
    else name
  }

  /** A name without a slash is its own place. */
  lemma PlainIsResolved(name: Text)
    requires SLASH !in name
    ensures Resolved(name) == name
  {
  }

  /** Hashes without a slash, in hexadecimal for instance, are never aliased: there it is enough to go by
      the hash. */
  lemma PlainHashesSuffice(s: State, u: nat)
    requires Enabled(s, Open(u)) && SerializedByHash(s, u) && s.place == Resolved
    requires SLASH !in s.uploads[u].hash
    requires forall id :: id in s.files ==> SLASH !in s.files[id].hash
    requires forall v :: 0 <= v < |s.uploads| && Active(s.uploads[v]) ==> SLASH !in s.uploads[v].hash
    ensures Serialized(s, Open(u))
  {
    PlainIsResolved(s.uploads[u].hash);
    forall id | id in s.files ensures s.place(s.files[id].hash) != s.place(s.uploads[u].hash) {
      PlainIsResolved(s.files[id].hash);
    }
    forall v | 0 <= v < |s.uploads| && Active(s.uploads[v]) ensures s.place(s.uploads[v].hash) != s.place(s.uploads[u].hash) {
      PlainIsResolved(s.uploads[v].hash);
    }
  }

  /* ---------- what goes wrong without it ---------- */

  /** A state that a serialized run of an empty store reaches. */
  ghost predicate Reached(s: State) {
    exists workers: nat, steps :: Feasible(NewStore(s.place, workers), steps) && s == After(NewStore(s.place, workers), steps)
  }

  lemma {:induction false} OneMore(s: State, steps: seq<Step>, step: Step)
    requires Feasible(s, steps) && Enabled(After(s, steps), step) && Serialized(After(s, steps), step)
    ensures Feasible(s, steps + [step]) && After(s, steps + [step]) == Next(After(s, steps), step)
    decreases |steps|
  {
    if steps == [] {
      assert Feasible(Next(s, step), []);
      assert (steps + [step])[1..] == [];
    } else {
      OneMore(Next(s, steps[0]), steps[1..], step);
      assert (steps + [step])[1..] == steps[1..] + [step];
    }
  }

  lemma ReachedNext(s: State, step: Step)
    requires Reached(s) && Enabled(s, step) && Serialized(s, step)
    ensures Reached(Next(s, step))
  {
    var workers: nat, steps :| Feasible(NewStore(s.place, workers), steps) && s == After(NewStore(s.place, workers), steps);
    OneMore(NewStore(s.place, workers), steps, step);
    assert Next(s, step).place == s.place;
  }

  lemma ReachedNew(place: Text -> Text, workers: nat)
    ensures Reached(NewStore(place, workers))
  {
    var s := NewStore(place, workers);
    assert Feasible(s, []) && s == After(s, []);
  }

  lemma Extends(s: State, u: nat, n: State)
    requires Reached(s) && u < |s.uploads| && s.uploads[u].Opened?
    requires var up := s.uploads[u];
      && s.place(up.hash) in s.blobs && s.blobs[s.place(up.hash)] == []
      && n == s.(blobs := s.blobs[s.place(up.hash) := Zeros(|up.content|)], uploads := s.uploads[u := Receiving(up.hash, up.content, 0)])
    ensures Reached(n)
  {
    ReachedNext(s, Extend(u));
    assert [] + Zeros(|s.uploads[u].content|) == Zeros(|s.uploads[u].content|);
    assert Next(s, Extend(u)) == n;
  }

  lemma WritesAll(s: State, u: nat, n: State)
    requires Reached(s) && u < |s.uploads| && s.uploads[u].Receiving? && s.uploads[u].got == 0 && s.uploads[u].content != []
    requires var up := s.uploads[u];
      && s.place(up.hash) in s.blobs && |s.blobs[s.place(up.hash)]| == |up.content|
      && n == s.(blobs := s.blobs[s.place(up.hash) := up.content], uploads := s.uploads[u := Received(up.hash, up.content)])
    ensures Reached(n)
  {
    var up := s.uploads[u];
    var blob := s.blobs[s.place(up.hash)];
    ReachedNext(s, Write(u, |up.content|));
    assert up.content[0..|up.content|] == up.content;
    assert blob[..0] + up.content + blob[|blob|..] == up.content;
    assert Next(s, Write(u, |up.content|)) == n;
  }

  /** An upload that nothing disturbs is stored whole. */
  lemma StoresWhole(s: State, u: nat, n: State)
    requires Reached(s) && u < |s.uploads| && s.uploads[u].Checked? && s.uploads[u].content != []
    requires Serialized(s, Open(u)) && !Stored(s, s.uploads[u].hash)
    requires var up := s.uploads[u];
      n == s.(files := s.files[s.nextFile := FileRow(up.hash, |up.content|)], nextFile := s.nextFile + 1,
              blobs := s.blobs[s.place(up.hash) := up.content],
              uploads := s.uploads[u := Recorded(up.hash, up.content, s.nextFile)])
    ensures Reached(n)
  {
    hide Reached;
    var up := s.uploads[u];
    var place := s.place(up.hash);
    ReachedNext(s, Open(u));
    var emptied := Next(s, Open(u));
    var extended := s.(blobs := s.blobs[place := Zeros(|up.content|)], uploads := s.uploads[u := Receiving(up.hash, up.content, 0)]);
    assert extended == emptied.(blobs := emptied.blobs[place := Zeros(|up.content|)], uploads := emptied.uploads[u := extended.uploads[u]]);
    Extends(emptied, u, extended);
    var written := s.(blobs := s.blobs[place := up.content], uploads := s.uploads[u := Received(up.hash, up.content)]);
    assert written == extended.(blobs := extended.blobs[place := up.content], uploads := extended.uploads[u := written.uploads[u]]);
    WritesAll(extended, u, written);
    ReachedNext(written, Record(u, true));
    assert Next(written, Record(u, true)) == n;
  }

  /** Two uploads of an empty store, both past their lookups, and the first one stored. */
  lemma FirstStored(place: Text -> Text, a: Text, b: Text, x: Text, y: Text) returns (s: State)
    requires HashText(a) && HashText(b) && x != [] && y != []
    ensures s == State(place, map[1 := FileRow(a, |x|)], 2, map[place(a) := x], [Recorded(a, x, 1), Checked(b, y)], EMPTY)
    ensures Reached(s)
  {
    s := NewStore(place, 2);
    ReachedNew(place, 2);
    ReachedNext(s, Begin(0, a, x));
    s := Next(s, Begin(0, a, x));
    ReachedNext(s, Begin(1, b, y));
    s := Next(s, Begin(1, b, y));
    var n := State(place, map[1 := FileRow(a, |x|)], 2, map[place(a) := x], [Recorded(a, x, 1), Checked(b, y)], EMPTY);
    StoresWhole(s, 0, n);
    s := n;
  }

  /** Unserialized, it fails: a second upload of the hash, past its lookup before the row was written,
      empties the blob of the finished one. */
  lemma SecondUploadDestroys(place: Text -> Text, hash: Text, x: Text, y: Text) returns (s: State)
    requires HashText(hash) && x != [] && y != []
    ensures Reached(s) && s.place == place && Enabled(s, Open(1)) && !Serialized(s, Open(1))
    ensures Blob(s, 1, x) && s.files[1] == FileRow(hash, |x|)
    ensures Blob(Next(s, Open(1)), 1, []) && Next(s, Open(1)).files == s.files
  {
    s := FirstStored(place, hash, hash, x, y);
    assert s.files[1].hash == hash;
  }

  /** Serializing by the hash is not enough: for every file name of 62 bytes, "./" and "//" in front of it
      make two hashes that handle_puts accepts and that open one file. */
  lemma AliasDestroys(name: Text, x: Text, y: Text) returns (s: State)
    requires |name| == 62 && NUL !in name && SLASH !in name && x != [] && y != []
    ensures var a, b := [DOT, SLASH] + name, [SLASH, SLASH] + name;
      && HashText(a) && HashText(b) && a != b
      && Reached(s) && s.place == Resolved && s.files == map[1 := FileRow(a, |x|)] && s.uploads == [Recorded(a, x, 1), Checked(b, y)]
    ensures Enabled(s, Open(1)) && SerializedByHash(s, 1)
    ensures Blob(s, 1, x) && Blob(Next(s, Open(1)), 1, [])
  {
    var a, b := [DOT, SLASH] + name, [SLASH, SLASH] + name;
    assert a[0] != b[0];
    AliasedPlaces(name);
    s := FirstStored(Resolved, a, b, x, y);
  }

  lemma AliasedPlaces(name: Text)
    requires SLASH !in name
    ensures Resolved([DOT, SLASH] + name) == Resolved([SLASH, SLASH] + name) == name
  {
    var a, b := [DOT, SLASH] + name, [SLASH, SLASH] + name;
    assert a[2..] == name;
    assert b[1..] == [SLASH] + name && b[1..][1..] == name;
    PlainIsResolved(name);
  }

  /* ---------- put, then get ---------- */

  /** Each stored hash is the hash of its blob, and each upload announces the hash of its content. */
  ghost predicate Honest(h: Text -> Text, s: State) {
    && (forall id, blob :: Blob(s, id, blob) ==> h(blob) == s.files[id].hash)
    && (forall u :: 0 <= u < |s.uploads| && s.uploads[u] != Idle ==> h(s.uploads[u].content) == s.uploads[u].hash)
  }

  ghost predicate HonestStep(h: Text -> Text, step: Step) {
    (step.Begin? ==> h(step.content) == step.hash) && (step.Instant? ==> h(step.content) == step.hash)
  }

  lemma HonestyKept(h: Text -> Text, s: State, step: Step)
    requires Inv(s) && Enabled(s, step) && Serialized(s, step) && Honest(h, s) && HonestStep(h, step)
    ensures Honest(h, Next(s, step))
  {
    StepKeepsInv(s, step);
    var n := Next(s, step);
    forall id, blob | Blob(n, id, blob) ensures h(blob) == n.files[id].hash {
      if id in s.files {
        assert RowComplete(s, id);
        assert Blob(s, id, s.blobs[s.place(s.files[id].hash)]);
      } else {
        assert step.Record? && UploadOk(s, s.uploads[step.u]);
      }
    }
  }

  lemma {:induction false} HonestOverRuns(h: Text -> Text, s: State, steps: seq<Step>)
    requires Inv(s) && Honest(h, s) && Feasible(s, steps)
    requires forall i :: 0 <= i < |steps| ==> HonestStep(h, steps[i])
    ensures Inv(After(s, steps)) && Honest(h, After(s, steps))
    decreases |steps|
  {
    if steps != [] {
      StepKeepsInv(s, steps[0]);
      HonestyKept(h, s, steps[0]);
      HonestOverRuns(h, Next(s, steps[0]), steps[1..]);
    }
  }

  lemma NewStoreInv(h: Text -> Text, place: Text -> Text, workers: nat)
    ensures Inv(NewStore(place, workers)) && Honest(h, NewStore(place, workers))
  {
  }

  /** dao_find_child_id for a file, then dao_get_file_info, then the stored bytes. */
  ghost predicate Gets(s: State, user: int, dir: int, name: Text, id: int, blob: Text) {
    && LiveEntry(s.table, dir, name, false, true, id)
    && s.table.rows[id].user == user
    && s.table.rows[id].kind.fileId > 0 && Blob(s, s.table.rows[id].kind.fileId, blob)
  }

  /** After a successful puts and any serialized run: as long as the new entry is live, looking the name
      up in that directory finds it and nothing else, and gets reads the blob that was stored then. */
  lemma EntryServesBlob(s: State, u: nat, user: int, dir: int, name: Text, steps: seq<Step>) returns (stored: Text)
    requires Inv(s) && u < |s.uploads| && s.uploads[u].Recorded?
    requires Enabled(s, Enter(u, user, dir, name, true))
    requires InsertPath(s.table, user, dir, name, s.uploads[u].fileId, true).1 > 0
    requires Feasible(Next(s, Enter(u, user, dir, name, true)), steps)
    ensures Blob(s, s.uploads[u].fileId, stored) && stored != []
    ensures var n := After(Next(s, Enter(u, user, dir, name, true)), steps);
            var made := s.table.next;
      && made in n.table.rows
      && (!n.table.rows[made].tomb ==> Gets(n, user, dir, name, made, stored))
      && (forall id, blob :: Gets(n, user, dir, name, id, blob) ==> id == made && blob == stored)
  {
    var up, made := s.uploads[u], s.table.next;
    var row := Row(user, dir, name, File(up.fileId), false);
    var s1 := Next(s, Enter(u, user, dir, name, true));
    var n := After(s1, steps);
    assert UploadOk(s, up);
    assert RowComplete(s, up.fileId);
    stored := s.blobs[s.place(up.hash)];
    StepKeepsInv(s, Enter(u, user, dir, name, true));
    assert Blob(s, up.fileId, stored);
    StoredForEver(s1, steps, up.fileId, stored);
    InsertShape(s.table, row, true);
    assert s1.table.rows[made] == row && Kept(row, n.table.rows[made]);
    OnlyEntry(n, user, dir, name, made);
  }

  lemma OnlyEntry(n: State, user: int, dir: int, name: Text, made: nat)
    requires Shape(n.table) && OwnedByParent(n.table) && Entry(n.table, dir, name, false, false, made)
    ensures forall id, blob :: Gets(n, user, dir, name, id, blob) ==> id == made
  {
    forall id, blob | Gets(n, user, dir, name, id, blob) ensures id == made {
      LookupIsFunction(n.table, dir, name, id, made);
    }
  }

  /** Put, then get: a successful puts of `content` under a name, for a newly received file or an instant
      upload, then any serialized run, then gets of that name in that directory. What the download hands
      over, whatever its record and its failures, is the uploaded content from the start block on, and
      all of it when the info packet and the sends work. Without a record the start is block 0. */
  lemma PutThenGet(h: Text -> Text, s: State, u: nat, user: int, dir: int, name: Text, steps: seq<Step>,
        id: int, blob: Text, t: D.Transfer, fate: D.Fate)
    requires Inv(s) && Honest(h, s) && u < |s.uploads| && s.uploads[u].Recorded?
    requires Enabled(s, Enter(u, user, dir, name, true))
    requires InsertPath(s.table, user, dir, name, s.uploads[u].fileId, true).1 > 0
    requires Feasible(Next(s, Enter(u, user, dir, name, true)), steps)
    requires Gets(After(Next(s, Enter(u, user, dir, name, true)), steps), user, dir, name, id, blob)
    requires |blob| <= D.MAX_SIZE
    requires t.record.Some? ==> 0 <= t.record.value.sequence <= D.TotalBlocks(|blob|)
    // no collision between what was uploaded and what is stored
    requires h(blob) == h(s.uploads[u].content) ==> blob == s.uploads[u].content
    ensures var content, total := s.uploads[u].content, D.TotalBlocks(|blob|);
            var start := D.StartOf(t, fate.startRead);
      && blob == content && 0 < |content|
      && D.StartsInside(t, total, fate) && (t.record.None? ==> start == 0)
      && D.Delivery(blob, t, fate) <= content[D.At(content, start)..]
      && (fate.info && D.Unhindered(fate, total - start) ==> D.Delivery(blob, t, fate) == content[D.At(content, start)..])
      && (fate.info && D.Unhindered(fate, total - start) && start == 0 ==> D.Delivery(blob, t, fate) == content)
  {
    var stored := EntryServesBlob(s, u, user, dir, name, steps);
    assert UploadOk(s, s.uploads[u]);
    D.SomeBlocks(|blob|);
    D.DeliveryIs(blob, t, fate);
  }
}
