/** The command loop of the connections, in place: the 512-byte path buffers, the two ids, and the table
    behind the queries (src/server/session.c, src/server/file_cmds.c, src/server/dao_vfs.c). Which queries
    work is given; each handler is proved to do what `SessionEffects.Does` says, and to be a command of
    `Sessions.Serve`, so that what is proved of their runs holds of connections served in any order. */
module SessionHandlers {
  import opened Bytes
  import opened Vfs
  import opened PathText
  import opened Sessions
  import opened SessionEffects
  import opened SessionRuns

  /** `char current_path[512]`. */
  class PathBuffer {
    const buf: array<byte>
    ghost var text: Text

    ghost predicate Valid()
      reads this, buf
    {
      && buf.Length == PATH_SIZE && 0 < |text| < PATH_SIZE && NUL !in text
      && buf[..|text|] == text && buf[|text|] == NUL
    }

    /** What a reader of the buffer sees. */
    lemma Reads()
      requires Valid()
      ensures CString(buf[..]) == text
    {
      CStringAt(buf[..], text);
    }

    constructor ()
      ensures Valid() && fresh(buf) && text == ROOT_PATH
    {
      buf := new byte[512](i => 0);
      text := ROOT_PATH;
      new;
      buf[0] := SLASH;
    }

    /** strcpy(path, "/"). */
    method Reset()
      requires Valid()
      modifies this, buf
      ensures Valid() && text == ROOT_PATH
    {
      buf[0] := SLASH;
      buf[1] := NUL;
      text := ROOT_PATH;
    }

    method Length() returns (n: nat)
      requires Valid()
      ensures n == |text|
    {
      n := 0;
      while buf[n] != NUL
        invariant 0 <= n <= |text|
        invariant forall i :: 0 <= i < n ==> buf[i] == text[i]
        decreases |text| - n
      {
        assert text[n] == buf[n];
        n := n + 1;
      }
    }

    /** strrchr, then cutting at what it found. */
    method Strip()
      requires Valid()
      modifies this, buf
      ensures Valid() && text == StripLast(old(text))
    {
      var n := Length();
      var last := n - 1;
      while last >= 0 && buf[last] != SLASH
        invariant -1 <= last < n == |text|
        invariant forall j :: last < j < n ==> text[j] != SLASH
      {
        assert text[last] == buf[last];
        last := last - 1;
      }
      assert last >= 0 ==> text[last] == buf[last] == SLASH;
      assert last == LastSlash(text);
      if last > 0 {
        buf[last] := NUL;
        text := text[..last];
        assert buf[..last] == text;
      } else {
        Reset();
      }
    }

    method Put(at: nat, b: byte)
      requires Valid() && at == |text| && at + 1 < PATH_SIZE && b != NUL
      modifies this, buf
      ensures Valid() && text == old(text) + [b]
    {
      buf[at] := b;
      buf[at + 1] := NUL;
      text := text + [b];
      assert buf[..at + 1] == text;
    }

    /** The two strcat calls of `cd name`. */
    method Append(name: Text)
      requires Valid() && Fits(text, name) && NUL !in name
      modifies this, buf
      ensures Valid() && text == Appended(old(text), name)
    {
      var n := Length();
      assert buf[0] == buf[..n][0] == text[0];
      if !(n == 1 && buf[0] == SLASH) {
        assert text != ROOT_PATH;
        Put(n, SLASH);
        n := n + 1;
      } else {
        assert text == ROOT_PATH;
      }
      ghost var front := text;
      for i := 0 to |name|
        invariant Valid() && text == front + name[..i] && n + i == |text| && n + |name| + 1 <= PATH_SIZE
      {
        Put(n + i, name[i]);
        assert name[..i + 1] == name[..i] + [name[i]];
      }
      assert name[..|name|] == name;
    }
  }

  /** The queries. `works` tells of each whether it does; a query that fails changes nothing. */
  class Database {
    var table: Table

    constructor ()
      ensures table == EMPTY
    {
      table := EMPTY;
    }

    /** The parent of a row that is not removed; -1 at a root, for no such row and on failure. */
    method GetParentId(dir: int, works: bool) returns (r: int)
      ensures r == if works && dir > 0 && dir in table.rows && !table.rows[dir].tomb && table.rows[dir].parent != 0
                   then table.rows[dir].parent else -1
    {
      if dir <= 0 || !works {
        return -1;
      }
      if dir in table.rows && !table.rows[dir].tomb && table.rows[dir].parent != 0 {
        return table.rows[dir].parent;
      }
      return -1;
    }

    /** A live row of the name and type in the directory; -1 exactly when there is none, or on failure. */
    method FindChildId(parent: int, name: Text, dirsOnly: bool, filesOnly: bool, works: bool) returns (r: int)
      ensures ChildAnswer(table, parent, name, dirsOnly, filesOnly, works, r)
    {
      if parent <= 0 || !works {
        return -1;
      }
      if exists id :: id in table.rows && LiveEntry(table, parent, name, dirsOnly, filesOnly, id) {
        var id :| id in table.rows && LiveEntry(table, parent, name, dirsOnly, filesOnly, id);
        return id;
      }
      return -1;
    }

    method GetRootDirId(user: int, works: bool) returns (r: int)
      ensures RootFound(table, user, works, r)
    {
      if user > 0 && works {
        if exists id :: id in table.rows && IsRoot(table, user, id) {
          r :| r in table.rows && IsRoot(table, user, r);
          return;
        }
      }
      return -1;
    }

    method InsertRow(row: Row, works: bool) returns (r: int)
      modifies this
      ensures (table, r) == Insert(old(table), row, works)
    {
      r := -1;
      if works && !KeyTaken(table, row.user, row.parent, row.name) && (row.parent == 0 || row.parent in table.rows) {
        r := table.next;
        table := Table(table.rows[table.next := row], table.next + 1);
      }
    }

    method InitRootDir(user: int, fate: RootFate) returns (r: int, ghost seen: int)
      modifies this
      ensures RootFound(old(table), user, fate.second, seen)
      ensures (table, r) == InitRoot(old(table), user, seen, fate.insert)
    {
      if user <= 0 {
        return -1, -1;
      }
      r := GetRootDirId(user, fate.second);
      seen := r;
      if r > 0 {
        return;
      }
      r := InsertRow(Row(user, 0, ROOT_NAME, Dir, false), fate.insert);
    }

    method CreateDirectory(user: int, parent: int, name: Text, lookup: bool, works: bool) returns (r: int, ghost seen: int)
      modifies this
      ensures ChildAnswer(old(table), parent, name, true, false, lookup, seen) || (user <= 0 && seen == -1)
      ensures (table, r) == CreateDir(old(table), user, parent, name, seen, works)
    {
      if user <= 0 || parent <= 0 {
        return -1, -1;
      }
      r := FindChildId(parent, name, true, false, lookup);
      seen := r;
      if r > 0 {
        return 0, seen;
      }
      r := InsertRow(Row(user, parent, name, Dir, false), works);
    }

    method DeleteEntry(user: int, id: int, works: bool) returns (r: int)
      modifies this
      ensures (table, r) == Delete(old(table), user, id, works)
    {
      if user <= 0 || id <= 0 || !works {
        return -1;
      }
      if id in table.rows && table.rows[id].user == user {
        table := table.(rows := table.rows[id := table.rows[id].(tomb := true)]);
      }
      return 0;
    }

    method InsertPathRow(user: int, parent: int, name: Text, fileId: int, works: bool) returns (r: int)
      modifies this
      ensures (table, r) == InsertPath(old(table), user, parent, name, fileId, works)
    {
      if user <= 0 || parent <= 0 || fileId <= 0 {
        return -1;
      }
      r := InsertRow(Row(user, parent, name, File(fileId), false), works);
    }
  }

  /** A packet as a command, before any answer. */
  function Bare(p: Packet): Command {
    match p
    case LoginPacket(result) => Login(result, MISSED)
    case RegisterPacket(result) => Register(result, MISSED, MISSED)
    case LogoutPacket => Logout
    case CdPacket(arg) => Cd(arg, -1, false)
    case MkdirPacket(arg) => Mkdir(arg, -1, false)
    case RmPacket(arg) => Rm(arg, -1, false)
    case PutsPacket(arg, fileId) => Puts(arg, fileId, false)
    case OtherPacket => Other
  }

  predicate CArgument(p: Packet) {
    match p
    case CdPacket(arg) => NUL !in arg
    case _ => true
  }

  class SessionState {
    const db: Database
    const path: PathBuffer
    var userId: int
    var dirId: int

    ghost predicate Valid()
      reads this, path, path.buf
    {
      path.Valid() && (userId == -1 || userId > 0)
    }

    ghost function View(): Session
      reads this, path
    {
      Session(userId, dirId, path.text)
    }

    constructor (db: Database)
      ensures Valid() && View() == LOGGED_OUT && this.db == db && fresh(path) && fresh(path.buf)
    {
      this.db := db;
      var p := new PathBuffer();
      path, userId, dirId := p, -1, -1;
    }

    method HandleCd(arg: Text, fate: Fate) returns (ghost c: Command)
      requires Valid() && NUL !in arg
      modifies this, path, path.buf
      ensures Valid() && c.Cd? && c.arg == arg
      ensures View() == DoCd(db.table, old(View()), arg, c.answer, c.up)
      ensures Possible(db.table, old(View()), c) && Exact(db.table, old(View()), c, fate)
    {
      c := Cd(arg, -1, fate.lookup);
      if arg == [] || arg == DOT_ARG {
        return;
      }
      if arg == DOTDOT_ARG {
        var parentId := db.GetParentId(dirId, fate.lookup);
        if parentId <= 0 {
          return;
        }
        dirId := parentId;
        path.Strip();
        return;
      }
      if arg == SLASH_ARG {
        var rootId := db.GetRootDirId(userId, fate.lookup);
        c := Cd(arg, rootId, fate.lookup);
        if rootId <= 0 {
          return;
        }
        dirId := rootId;
        path.Reset();
        return;
      }
      var childId := db.FindChildId(dirId, arg, true, false, fate.lookup);
      c := Cd(arg, childId, fate.lookup);
      if childId <= 0 {
        return;
      }
      dirId := childId;
      var n := path.Length();
      if n + |arg| + 2 > PATH_SIZE {
        return;
      }
      path.Append(arg);
    }

    method HandleMkdir(arg: Text, fate: Fate) returns (ghost c: Command)
      requires userId > 0
      modifies db
      ensures c.Mkdir? && c.arg == arg
      ensures Possible(old(db.table), View(), c) && Exact(old(db.table), View(), c, fate)
      ensures db.table == if arg == [] then old(db.table) else CreateDir(old(db.table), userId, dirId, arg, c.answer, c.up).0
    {
      c := Mkdir(arg, -1, fate.change);
      if arg == [] {
        return;
      }
      ghost var seen;
      var newDirId;
      newDirId, seen := db.CreateDirectory(userId, dirId, arg, fate.lookup, fate.change);
      c := Mkdir(arg, seen, fate.change);
    }

    method HandleRm(arg: Text, fate: Fate) returns (ghost c: Command)
      modifies db
      ensures c.Rm? && c.arg == arg
      ensures Possible(old(db.table), View(), c) && Exact(old(db.table), View(), c, fate)
      ensures db.table == if arg == [] || c.answer <= 0 then old(db.table) else Delete(old(db.table), userId, c.answer, c.up).0
    {
      c := Rm(arg, -1, fate.change);
      if arg == [] {
        return;
      }
      var pathId := db.FindChildId(dirId, arg, false, false, fate.lookup);
      c := Rm(arg, pathId, fate.change);
      if pathId <= 0 {
        return;
      }
      var r := db.DeleteEntry(userId, pathId, fate.change);
    }

    /** The table part of handle_puts: the entry for an uploaded or already stored file. */
    method HandlePuts(arg: Text, fileId: int, fate: Fate) returns (ghost c: Command)
      modifies db
      ensures c.Puts? && c.arg == arg && c.fileId == fileId
      ensures Possible(old(db.table), View(), c) && Exact(old(db.table), View(), c, fate)
      ensures db.table == if arg == [] then old(db.table) else InsertPath(old(db.table), userId, dirId, arg, fileId, c.up).0
    {
      c := Puts(arg, fileId, fate.change);
      if arg == [] {
        return;
      }
      var newPathId := db.InsertPathRow(userId, dirId, arg, fileId, fate.change);
    }

    /** Looks the root up, and creates it if the lookup did not find one. */
    method EnterRoot(fate: RootFate) returns (ghost tr: RootTrace)
      modifies db, `dirId
      requires userId > 0
      ensures TraceAnswers(old(db.table), userId, tr) && TraceExact(old(db.table), userId, fate, tr)
      ensures (db.table, dirId) == ResolveRoot(old(db.table), userId, tr)
    {
      dirId := db.GetRootDirId(userId, fate.first);
      tr := RootTrace(dirId, -1, fate.insert);
      if dirId <= 0 {
        ghost var seen;
        dirId, seen := db.InitRootDir(userId, fate);
        tr := tr.(second := seen);
      }
    }

    method HandleLogin(result: int, fate: Fate) returns (ghost c: Command)
      requires Valid()
      modifies db, `userId, `dirId
      ensures Valid() && c.Login? && c.result == result
      ensures Possible(old(db.table), old(View()), c) && Exact(old(db.table), old(View()), c, fate)
      ensures (db.table, View()) == DoLogin(old(db.table), old(View()), c)
    {
      c := Login(result, RootTrace(-1, -1, false));
      if result > 0 {
        userId := result;
      }
      if userId > 0 {
        if dirId == -1 {
          ghost var tr := EnterRoot(fate.root);
          c := Login(result, tr);
        }
      }
    }

    method HandleRegister(result: int, fate: Fate) returns (ghost c: Command)
      requires Valid()
      modifies db, `userId, `dirId
      ensures Valid() && c.Register? && c.result == result
      ensures Possible(old(db.table), old(View()), c) && Exact(old(db.table), old(View()), c, fate)
      ensures (db.table, View()) == DoRegister(old(db.table), old(View()), c)
    {
      ghost var made := RootTrace(-1, -1, fate.made.insert);
      ghost var tr := RootTrace(-1, -1, false);
      if result > 0 {
        var rootId;
        ghost var seen;
        rootId, seen := db.InitRootDir(result, fate.made);
        made := made.(second := seen);
        userId := result;
      }
      if userId > 0 {
        tr := EnterRoot(fate.root);
      }
      c := Register(result, made, tr);
    }

    /** The switch of handle_request, behind the login gate: the packet has its effect, which is that of a
        command with answers the database can give. */
    method Dispatch(p: Packet, fate: Fate) returns (ghost c: Command)
      requires Valid() && CArgument(p)
      modifies this, db, path, path.buf
      ensures Valid()
      ensures Does(old(db.table), old(View()), p, fate, db.table, View())
      ensures Labels(c, p) && Possible(old(db.table), old(View()), c)
      ensures (db.table, View()) == Serve(old(db.table), old(View()), c)
    {
      hide Does, Exact, Possible;
      ghost var t, s := db.table, View();
      c := Switch(p, fate);
      ExactDoes(t, s, c, p, fate);
    }

    method Switch(p: Packet, fate: Fate) returns (ghost c: Command)
      requires Valid() && CArgument(p)
      modifies this, db, path, path.buf
      ensures Valid() && Labels(c, p)
      ensures Possible(old(db.table), old(View()), c) && Exact(old(db.table), old(View()), c, fate)
      ensures (db.table, View()) == Serve(old(db.table), old(View()), c)
    {
      if userId == -1 && !p.LoginPacket? && !p.RegisterPacket? && !p.LogoutPacket? {
        c := Bare(p);
        return;
      }
      match p {
        case LoginPacket(result) => c := HandleLogin(result, fate);
        case RegisterPacket(result) => c := HandleRegister(result, fate);
        case LogoutPacket =>
          userId, dirId := -1, -1;
          path.Reset();
          c := Logout;
        case CdPacket(arg) => c := HandleCd(arg, fate);
        case MkdirPacket(arg) => c := HandleMkdir(arg, fate);
        case RmPacket(arg) => c := HandleRm(arg, fate);
        case PutsPacket(arg, fileId) => c := HandlePuts(arg, fileId, fate);
        case OtherPacket => c := Other;
      }
    }
  }

  /* ---------- several connections ---------- */

  /** The steps are these packets, with the database's answers filled in. */
  ghost predicate Served(turns: seq<Turn>, steps: seq<Step>) {
    && |steps| == |turns|
    && forall i :: 0 <= i < |turns| ==> steps[i].Do? && steps[i].k == turns[i].k && Labels(steps[i].command, turns[i].packet)
  }

  function Unanswered(turns: seq<Turn>): (r: seq<Step>)
    ensures |r| == |turns|
  {
    if turns == [] then [] else [Do(turns[0].k, Bare(turns[0].packet))] + Unanswered(turns[1..])
  }

  /** A condition on the packets alone: what `TameRunsAgree` asks of a run. */
  ghost predicate TamePackets(turns: seq<Turn>) {
    Tame({}, Unanswered(turns)) && forall k: nat :: 1 + Growth(Unanswered(turns), k) < PATH_SIZE
  }

  lemma {:induction false} AnswersDoNotMatter(turns: seq<Turn>, steps: seq<Step>, inside: set<nat>, k: nat)
    requires Served(turns, steps)
    ensures Tame(inside, steps) == Tame(inside, Unanswered(turns))
    ensures Growth(steps, k) == Growth(Unanswered(turns), k)
    decreases |steps|
  {
    if steps != [] {
      assert Labels(steps[0].command, turns[0].packet);
      forall i | 0 <= i < |turns| - 1
        ensures steps[1..][i].Do? && steps[1..][i].k == turns[1..][i].k && Labels(steps[1..][i].command, turns[1..][i].packet)
      {
        assert Labels(steps[i + 1].command, turns[i + 1].packet);
      }
      var bare := Unanswered(turns);
      assert bare[0] == Do(turns[0].k, Bare(turns[0].packet)) && bare[1..] == Unanswered(turns[1..]);
      SameLogin(inside, steps[0], turns[0]);
      AnswersDoNotMatter(turns[1..], steps[1..], LoggedIn(inside, steps[0]), k);
    }
  }

  lemma SameLogin(inside: set<nat>, step: Step, turn: Turn)
    requires step.Do? && step.k == turn.k && Labels(step.command, turn.packet)
    ensures LoggedIn(inside, step) == LoggedIn(inside, Do(turn.k, Bare(turn.packet)))
  {
  }

  ghost function Connected(t: Table, clients: nat): World {
    World(t, seq(clients, i => LOGGED_OUT))
  }

  /** What the runs of the sessions promise, said of the packets. */
  lemma PacketsKeepPromises(t: Table, clients: nat, turns: seq<Turn>, steps: seq<Step>)
    requires Shape(t) && Served(turns, steps) && Feasible(Connected(t, clients), steps)
    ensures var w := After(Connected(t, clients), steps);
      && WorldOk(w) && Grows(t, w.table)
      && (SlashFree(t) && TamePackets(turns) ==> Agrees(w) && SlashFree(w.table))
  {
    var w := Connected(t, clients);
    ForestOverRuns(w, steps);
    if SlashFree(t) && TamePackets(turns) {
      forall k: nat ensures 1 + Growth(steps, k) < PATH_SIZE {
        AnswersDoNotMatter(turns, steps, {}, k);
      }
      AnswersDoNotMatter(turns, steps, {}, 0);
      TameRunsAgree(w, {}, steps);
    }
  }

  /** The objects of these sessions, without the database. */
  ghost function Footprint(states: seq<SessionState>): (r: set<object>)
    ensures forall i :: 0 <= i < |states| ==> states[i] in r && states[i].path in r && states[i].path.buf in r
  {
    if states == [] then {}
    else
      var last := states[|states| - 1];
      Footprint(states[..|states| - 1]) + {last, last.path, last.path.buf}
  }

  /** Each session has a buffer of its own, and all share the database. */
  ghost predicate Separate(states: seq<SessionState>, db: Database) {
    && (forall i :: 0 <= i < |states| ==> states[i].db == db)
    && (forall i, j :: 0 <= i < j < |states| ==>
          states[i] != states[j] && states[i].path != states[j].path && states[i].path.buf != states[j].path.buf)
  }

  ghost predicate AllValid(states: seq<SessionState>)
    reads Footprint(states)
  {
    forall i :: 0 <= i < |states| ==> states[i].Valid()
  }

  ghost function Views(states: seq<SessionState>): (r: seq<Session>)
    reads Footprint(states)
    ensures |r| == |states| && forall i :: 0 <= i < |states| ==> r[i] == states[i].View()
  {
    seq(|states|, i requires 0 <= i < |states| reads Footprint(states) => states[i].View())
  }

  lemma FootprintMore(states: seq<SessionState>, more: SessionState)
    ensures Footprint(states + [more]) == Footprint(states) + {more, more.path, more.path.buf}
  {
    assert (states + [more])[..|states|] == states;
  }

  lemma SeparateMore(states: seq<SessionState>, more: SessionState, db: Database)
    requires Separate(states, db) && more.db == db
    requires forall i :: 0 <= i < |states| ==>
      states[i] != more && states[i].path != more.path && states[i].path.buf != more.path.buf
    ensures Separate(states + [more], db)
  {
  }

  method Connect(db: Database, clients: nat) returns (states: seq<SessionState>)
    ensures |states| == clients && Separate(states, db) && fresh(Footprint(states)) && AllValid(states)
    ensures Views(states) == seq(clients, i => LOGGED_OUT)
  {
    hide Footprint, Separate;
    states := [];
    EmptyFootprint(db);
    for n := 0 to clients
      invariant |states| == n && Separate(states, db) && fresh(Footprint(states)) && AllValid(states)
      invariant forall i :: 0 <= i < n ==> states[i].View() == LOGGED_OUT
    {
      var state := new SessionState(db);
      FootprintMore(states, state);
      SeparateMore(states, state, db);
      states := states + [state];
    }
  }

  lemma EmptyFootprint(db: Database)
    ensures Footprint([]) == {} && Separate([], db)
  {
  }

  /** One packet of one client: it has its effect, the other sessions stay as they are, and it is a step
      of the world of sessions. */
  method ServeTurn(db: Database, states: seq<SessionState>, turn: Turn) returns (ghost c: Command)
    requires turn.k < |states| && Separate(states, db) && AllValid(states) && CArgument(turn.packet)
    modifies db, Footprint(states)
    ensures AllValid(states) && Labels(c, turn.packet)
    ensures TurnDone(World(old(db.table), old(Views(states))), turn, World(db.table, Views(states)))
    ensures Enabled(World(old(db.table), old(Views(states))), Do(turn.k, c))
    ensures World(db.table, Views(states)) == Next(World(old(db.table), old(Views(states))), Do(turn.k, c))
  {
    hide Does, Possible, Labels, Serve;
    ghost var before := World(db.table, Views(states));
    c := states[turn.k].Dispatch(turn.packet, turn.fate);
    forall i | 0 <= i < |states| && i != turn.k
      ensures states[i].Valid() && states[i].View() == before.sessions[i]
    {
      assert states[i] != states[turn.k] && states[i].path != states[turn.k].path && states[i].path.buf != states[turn.k].path.buf;
    }
    assert Views(states) == before.sessions[turn.k := states[turn.k].View()];
  }

  lemma BufferReads(states: seq<SessionState>)
    requires AllValid(states)
    ensures forall k :: 0 <= k < |states| ==> CString(states[k].path.buf[..]) == Views(states)[k].path
  {
    forall k | 0 <= k < |states| ensures CString(states[k].path.buf[..]) == Views(states)[k].path {
      states[k].path.Reads();
    }
  }

  /** The worlds between the turns: each turn has its effect on the world it meets. */
  ghost predicate History(worlds: seq<World>, turns: seq<Turn>, first: World, last: World) {
    && |worlds| == |turns| + 1 && worlds[0] == first && worlds[|turns|] == last
    && forall i :: 0 <= i < |turns| ==> TurnDone(worlds[i], turns[i], worlds[i + 1])
  }

  lemma OneMoreTurn(worlds: seq<World>, turns: seq<Turn>, i: nat, first: World, last: World, n: World)
    requires i < |turns| && History(worlds, turns[..i], first, last) && TurnDone(last, turns[i], n)
    ensures History(worlds + [n], turns[..i + 1], first, n)
  {
    hide TurnDone;
    assert turns[..i + 1] == turns[..i] + [turns[i]];
  }

  lemma OneMoreServed(turns: seq<Turn>, steps: seq<Step>, i: nat, c: Command)
    requires i < |turns| && Served(turns[..i], steps) && Labels(c, turns[i].packet)
    ensures Served(turns[..i + 1], steps + [Do(turns[i].k, c)])
  {
    hide Labels;
    assert turns[..i + 1] == turns[..i] + [turns[i]];
  }

  method ServeTurns(db: Database, states: seq<SessionState>, turns: seq<Turn>)
    returns (ghost steps: seq<Step>, ghost worlds: seq<World>)
    requires Separate(states, db) && AllValid(states)
    requires forall i :: 0 <= i < |turns| ==> turns[i].k < |states| && CArgument(turns[i].packet)
    modifies db, Footprint(states)
    ensures AllValid(states) && Served(turns, steps)
    ensures History(worlds, turns, World(old(db.table), old(Views(states))), World(db.table, Views(states)))
    ensures Feasible(World(old(db.table), old(Views(states))), steps)
    ensures After(World(old(db.table), old(Views(states))), steps) == World(db.table, Views(states))
  {
    hide Enabled, Next, Labels, Served, Feasible, After, Separate, TurnDone, History;
    ghost var start := World(db.table, Views(states));
    steps, worlds := [], [start];
    EmptyRun(start);
    for i := 0 to |turns|
      invariant AllValid(states) && Served(turns[..i], steps) && Feasible(start, steps)
      invariant History(worlds, turns[..i], start, World(db.table, Views(states)))
      invariant After(start, steps) == World(db.table, Views(states))
    {
      ghost var before := World(db.table, Views(states));
      ghost var c := ServeTurn(db, states, turns[i]);
      OneMore(start, steps, Do(turns[i].k, c));
      OneMoreServed(turns, steps, i, c);
      OneMoreTurn(worlds, turns, i, start, before, World(db.table, Views(states)));
      steps := steps + [Do(turns[i].k, c)];
      worlds := worlds + [World(db.table, Views(states))];
    }
    assert turns[..|turns|] == turns;
  }

  lemma EmptyRun(w: World)
    ensures Feasible(w, []) && After(w, []) == w && Served([], []) && History([w], [], w, w)
  {
  }

  /** handle_request of several connections over one database, their packets in any order and their queries
      working or failing in any way. Every packet has its effect on the world it meets. The table stays a
      forest that only gains rows and tombstones; and if the packets are tame, then at the end each
      512-byte buffer holds the names on the way from the root to that session's directory. */
  method HandleRequests(db: Database, clients: nat, turns: seq<Turn>)
    returns (states: seq<SessionState>, ghost steps: seq<Step>, ghost worlds: seq<World>)
    requires forall i :: 0 <= i < |turns| ==> turns[i].k < clients && CArgument(turns[i].packet)
    modifies db
    ensures |states| == clients
    ensures History(worlds, turns, Connected(old(db.table), clients), World(db.table, Views(states)))
    ensures Served(turns, steps) && Feasible(Connected(old(db.table), clients), steps)
    ensures After(Connected(old(db.table), clients), steps) == World(db.table, Views(states))
    ensures Shape(old(db.table)) ==> WorldOk(World(db.table, Views(states))) && Grows(old(db.table), db.table)
    ensures Shape(old(db.table)) && SlashFree(old(db.table)) && TamePackets(turns) ==>
      forall k :: 0 <= k < clients ==> CString(states[k].path.buf[..]) == PathOf(db.table, states[k].dirId)
  {
    hide TurnDone, History;
    states := Connect(db, clients);
    ghost var start := Connected(db.table, clients);
    steps, worlds := ServeTurns(db, states, turns);
    if Shape(start.table) {
      PacketsKeepPromises(start.table, clients, turns, steps);
    }
    BufferReads(states);
  }
}
