/** Sessions over the shared `paths` table: what each command does to a session's three variables and to
    the table, with the answers the database gave as part of the command's label
    (src/server/session.c, src/server/file_cmds.c). */
module Sessions {
  import opened Bytes
  import opened Vfs
  import opened PathText

  /** The variables of handle_request: -1 and "/" when logged out. */
  datatype Session = Session(user: int, dir: int, path: Text)

  const LOGGED_OUT := Session(-1, -1, ROOT_PATH)
  const DOT_ARG: Text := [DOT]
  const DOTDOT_ARG: Text := [DOT, DOT]
  const SLASH_ARG: Text := [SLASH]

  /** The two lookups of a root and whether the insert that may follow them succeeds. */
  datatype RootTrace = RootTrace(first: int, second: int, inserted: bool)

  /** A received command and what the database answered. `result` of a login or register is the user id,
      or not positive on failure; `answer` is a lookup's result; `up` tells whether the query that follows
      succeeds. `Other` stands for pwd, ls, gets and unknown commands: they leave table and session. */
  datatype Command =
    | Login(result: int, root: RootTrace)
    | Register(result: int, made: RootTrace, root: RootTrace)
    | Logout
    | Cd(arg: Text, answer: int, up: bool)
    | Mkdir(arg: Text, answer: int, up: bool)
    | Rm(arg: Text, answer: int, up: bool)
    | Puts(arg: Text, fileId: int, up: bool)
    | Other

  function ResolveRoot(t: Table, user: int, tr: RootTrace): (Table, int) {
    if tr.first > 0 then (t, tr.first) else InitRoot(t, user, tr.second, tr.inserted)
  }

  function DoLogin(t: Table, s: Session, c: Command): (Table, Session)
    requires c.Login?
  {
    var user := if c.result > 0 then c.result else s.user;
    if user > 0 && s.dir == -1 then
      var (n, dir) := ResolveRoot(t, user, c.root);
      (n, Session(user, dir, s.path))
    else (t, s.(user := user))
  }

  /** A successful register has already made the new user's root inside dao_register_user. */
  function DoRegister(t: Table, s: Session, c: Command): (Table, Session)
    requires c.Register?
  {
    var t1 := if c.result > 0 then InitRoot(t, c.result, c.made.second, c.made.inserted).0 else t;
    var user := if c.result > 0 then c.result else s.user;
    if user > 0 then
      var (n, dir) := ResolveRoot(t1, user, c.root);
      (n, Session(user, dir, s.path))
    else (t1, s.(user := user))
  }

  function DoCd(t: Table, s: Session, arg: Text, answer: int, up: bool): Session {
    if arg == [] || arg == DOT_ARG then s
    else if arg == DOTDOT_ARG then
      var parent := ParentAnswer(t, s.dir, up);
      if parent <= 0 then s else s.(dir := parent, path := StripLast(s.path))
    else if answer <= 0 then s
    else if arg == SLASH_ARG then s.(dir := answer, path := ROOT_PATH)
    else if !Fits(s.path, arg) then s.(dir := answer)
    else s.(dir := answer, path := Appended(s.path, arg))
  }

  /** One command of one session. Before login only login, register and logout are served. */
  function Serve(t: Table, s: Session, c: Command): (Table, Session) {
    match c
    case Login(_, _) => DoLogin(t, s, c)
    case Register(_, _, _) => DoRegister(t, s, c)
    case Logout => (t, LOGGED_OUT)
    case Other => (t, s)
    case _ => if s.user == -1 then (t, s) else ServeFiles(t, s, c)
  }

  function ServeFiles(t: Table, s: Session, c: Command): (Table, Session)
    requires c.Cd? || c.Mkdir? || c.Rm? || c.Puts?
  {
    match c
    case Cd(arg, answer, up) => (t, DoCd(t, s, arg, answer, up))
    case Mkdir(arg, answer, up) => (if arg == [] then t else CreateDir(t, s.user, s.dir, arg, answer, up).0, s)
    case Rm(arg, answer, up) => (if arg == [] || answer <= 0 then t else Delete(t, s.user, answer, up).0, s)
    case Puts(arg, fileId, up) => (if arg == [] then t else InsertPath(t, s.user, s.dir, arg, fileId, up).0, s)
  }

  /** An argument that `cd` looks up as the name of a child. */
  predicate PlainName(name: Text) {
    name != [] && name != DOT_ARG && name != DOTDOT_ARG && name != SLASH_ARG
  }

  predicate TraceAnswers(t: Table, user: int, tr: RootTrace) {
    RootAnswer(t, user, tr.first) && RootAnswer(t, user, tr.second)
  }

  /** The answers a database can give. Only the last query of a command sees the table as it is; an
      earlier one may be out of date, so `mkdir` and `rm` accept an entry that has been removed since. */
  ghost predicate Possible(t: Table, s: Session, c: Command) {
    match c
    case Login(result, root) => TraceAnswers(t, if result > 0 then result else s.user, root)
    case Register(result, made, root) =>
      if result > 0 then TraceAnswers(t, result, made) && TraceAnswers(InitRoot(t, result, made.second, made.inserted).0, result, root)
      else TraceAnswers(t, s.user, root)
    case Cd(arg, answer, up) =>
      if arg == SLASH_ARG then RootAnswer(t, s.user, answer) else PlainName(arg) ==> ChildAnswer(t, s.dir, arg, true, false, up, answer)
    case Mkdir(arg, answer, up) => answer <= 0 || Entry(t, s.dir, arg, true, false, answer)
    case Rm(arg, answer, up) => answer <= 0 || Entry(t, s.dir, arg, false, false, answer)
    case _ => true
  }

  /* ---------- many sessions ---------- */

  datatype World = World(table: Table, sessions: seq<Session>)

  /** `Connect` opens a session; `Do` is one command of session `k`. */
  datatype Step = Connect | Do(k: nat, command: Command)

  ghost predicate Enabled(w: World, step: Step) {
    step.Do? ==> step.k < |w.sessions| && Possible(w.table, w.sessions[step.k], step.command)
  }

  ghost function Next(w: World, step: Step): World
    requires Enabled(w, step)
  {
    match step
    case Connect => w.(sessions := w.sessions + [LOGGED_OUT])
    case Do(k, c) =>
      var (t, s) := Serve(w.table, w.sessions[k], c);
      World(t, w.sessions[k := s])
  }

  /** What holds after every run, with no restriction on the commands: a session is logged out, or its
      directory id is -1 or names a directory row. */
  ghost predicate SessionOk(t: Table, s: Session) {
    && (s.user == -1 ==> s == LOGGED_OUT)
    && (s.user == -1 || s.user > 0)
    && (s.dir == -1 || (s.dir > 0 && s.dir in t.rows && t.rows[s.dir].kind.Dir?))
  }

  ghost predicate WorldOk(w: World) {
    Shape(w.table) && forall k :: 0 <= k < |w.sessions| ==> SessionOk(w.table, w.sessions[k])
  }

  lemma SessionOkGrows(t: Table, n: Table, s: Session)
    requires SessionOk(t, s) && Grows(t, n)
    ensures SessionOk(n, s)
  {
    if s.dir > 0 { assert Kept(t.rows[s.dir], n.rows[s.dir]); }
  }

  lemma ResolveRootOk(t: Table, user: int, tr: RootTrace)
    requires Shape(t) && user > 0 && TraceAnswers(t, user, tr)
    ensures var (n, dir) := ResolveRoot(t, user, tr);
      && Shape(n) && Grows(t, n) && (dir == -1 || IsRoot(n, user, dir))
      && (n != t ==> tr.first <= 0 && tr.second <= 0 && n == Insert(t, Row(user, 0, ROOT_NAME, Dir, false), true).0)
  {
    InsertShape(t, Row(user, 0, ROOT_NAME, Dir, false), tr.inserted);
  }

  lemma LoginOk(t: Table, s: Session, c: Command)
    requires Shape(t) && SessionOk(t, s) && Possible(t, s, c) && c.Login?
    ensures var (n, r) := Serve(t, s, c); Shape(n) && Grows(t, n) && SessionOk(n, r)
  {
    hide Insert, UniqueKeys, RowOk;
    var user := if c.result > 0 then c.result else s.user;
    if user > 0 { ResolveRootOk(t, user, c.root); }
  }

  lemma RegisterOk(t: Table, s: Session, c: Command)
    requires Shape(t) && SessionOk(t, s) && Possible(t, s, c) && c.Register?
    ensures var (n, r) := Serve(t, s, c); Shape(n) && Grows(t, n) && SessionOk(n, r)
  {
    hide Insert, UniqueKeys, RowOk, Grows;
    if c.result > 0 {
      var t1 := InitRoot(t, c.result, c.made.second, c.made.inserted).0;
      ResolveRootOk(t, c.result, c.made.(first := -1));
      ResolveRootOk(t1, c.result, c.root);
      GrowsTransitive(t, t1, ResolveRoot(t1, c.result, c.root).0);
    } else {
      GrowsItself(t);
      if s.user > 0 { ResolveRootOk(t, s.user, c.root); }
    }
  }

  lemma FilesOk(t: Table, s: Session, c: Command)
    requires Shape(t) && SessionOk(t, s) && Possible(t, s, c) && (c.Cd? || c.Mkdir? || c.Rm? || c.Puts?) && s.user != -1
    ensures var n := ServeFiles(t, s, c).0; Shape(n) && Grows(t, n)
    ensures SessionOk(ServeFiles(t, s, c).0, ServeFiles(t, s, c).1)
  {
    hide Insert, UniqueKeys;
    match c {
      case Mkdir(arg, answer, up) =>
        if s.dir > 0 && arg != [] {
          InsertShape(t, Row(s.user, s.dir, arg, Dir, false), up);
          SessionOkGrows(t, Insert(t, Row(s.user, s.dir, arg, Dir, false), up).0, s);
        }
      case Puts(arg, fileId, up) =>
        if s.dir > 0 && arg != [] {
          InsertShape(t, Row(s.user, s.dir, arg, File(fileId), false), up);
          SessionOkGrows(t, Insert(t, Row(s.user, s.dir, arg, File(fileId), false), up).0, s);
        }
      case Rm(arg, answer, up) =>
        DeleteShape(t, s.user, answer, up);
        SessionOkGrows(t, Delete(t, s.user, answer, up).0, s);
      case Cd(arg, answer, up) =>
        if s.dir > 0 { assert RowOk(t.rows, s.dir); }
    }
  }

  lemma ServeOk(t: Table, s: Session, c: Command)
    requires Shape(t) && SessionOk(t, s) && Possible(t, s, c)
    ensures var (n, r) := Serve(t, s, c); Shape(n) && Grows(t, n) && SessionOk(n, r)
  {
    hide DoLogin, DoRegister, ServeFiles;
    GrowsItself(t);
    match c {
      case Login(_, _) => LoginOk(t, s, c);
      case Register(_, _, _) => RegisterOk(t, s, c);
      case Logout =>
      case Other =>
      case _ => if s.user != -1 { FilesOk(t, s, c); }
    }
  }

  /** A login or register from the logged-out state ends in the user's own root with the path "/"; it has
      no directory exactly when both lookups and the insert failed. */
  lemma LoginLandsInRoot(t: Table, result: int, tr: RootTrace)
    requires Shape(t) && result > 0 && TraceAnswers(t, result, tr)
    ensures var (n, r) := Serve(t, LOGGED_OUT, Login(result, tr));
      && r.user == result && r.path == ROOT_PATH
      && (r.dir == -1 || (IsRoot(n, result, r.dir) && Names(n, r.dir) == []))
      && (r.dir == -1 <==> tr.first <= 0 && tr.second <= 0 && !tr.inserted)
  {
    ResolveRootOk(t, result, tr);
  }

  lemma RegisterLandsInRoot(t: Table, result: int, made: RootTrace, tr: RootTrace)
    requires Shape(t) && result > 0 && Possible(t, LOGGED_OUT, Register(result, made, tr))
    ensures var (n, r) := Serve(t, LOGGED_OUT, Register(result, made, tr));
      && r.user == result && r.path == ROOT_PATH
      && (r.dir == -1 || IsRoot(n, result, r.dir))
      && (r.dir == -1 <==> tr.first <= 0 && tr.second <= 0 && !tr.inserted)
  {
    ResolveRootOk(t, result, made.(first := -1));
    ResolveRootOk(InitRoot(t, result, made.second, made.inserted).0, result, tr);
  }

  lemma StepKeepsWorld(w: World, step: Step)
    requires WorldOk(w) && Enabled(w, step)
    ensures WorldOk(Next(w, step)) && Grows(w.table, Next(w, step).table) && |w.sessions| <= |Next(w, step).sessions|
  {
    if step.Do? {
      ServeOk(w.table, w.sessions[step.k], step.command);
      forall k | 0 <= k < |w.sessions|
        ensures SessionOk(Next(w, step).table, Next(w, step).sessions[k])
      {
        SessionOkGrows(w.table, Next(w, step).table, w.sessions[k]);
      }
    }
  }

  ghost predicate Feasible(w: World, steps: seq<Step>)
    decreases |steps|
  {
    steps == [] || (Enabled(w, steps[0]) && Feasible(Next(w, steps[0]), steps[1..]))
  }

  ghost function After(w: World, steps: seq<Step>): World
    requires Feasible(w, steps)
    decreases |steps|
  {
    if steps == [] then w else After(Next(w, steps[0]), steps[1..])
  }

  /** Every run of any commands of any sessions keeps the forest, and rows only ever gain tombstones. */
  lemma {:induction false} ForestOverRuns(w: World, steps: seq<Step>)
    requires WorldOk(w) && Feasible(w, steps)
    ensures WorldOk(After(w, steps)) && Grows(w.table, After(w, steps).table)
    ensures |w.sessions| <= |After(w, steps).sessions|
    decreases |steps|
  {
    if steps != [] {
      var n := Next(w, steps[0]);
      StepKeepsWorld(w, steps[0]);
      ForestOverRuns(n, steps[1..]);
      GrowsTransitive(w.table, n.table, After(n, steps[1..]).table);
    }
  }

  const NEW_WORLD := World(EMPTY, [])

  /** The runs below may start from an empty server. */
  lemma NewWorldOk()
    ensures WorldOk(NEW_WORLD) && Owned(NEW_WORLD) && OneRoot(EMPTY) && Agrees(NEW_WORLD)
  {
  }

  /* ---------- ownership ---------- */

  /** Every entry, and every logged-in session, belongs to the owner of its directory. */
  ghost predicate Owned(w: World) {
    && OwnedByParent(w.table)
    && forall k :: 0 <= k < |w.sessions| && w.sessions[k].dir > 0 ==>
         w.sessions[k].dir in w.table.rows && w.table.rows[w.sessions[k].dir].user == w.sessions[k].user
  }

  /** The one command that breaks ownership: logging in as somebody else on top of a live session, which
      keeps the old directory. */
  ghost predicate StaysOneUser(w: World, step: Step)
    requires Enabled(w, step)
  {
    step.Do? && step.command.Login? && step.command.result > 0 && w.sessions[step.k].dir != -1 ==>
      step.command.result == w.sessions[step.k].user
  }

  lemma InsertOwned(t: Table, row: Row, up: bool)
    requires Shape(t) && OwnedByParent(t)
    requires row.parent != 0 ==> row.parent in t.rows ==> t.rows[row.parent].user == row.user
    ensures OwnedByParent(Insert(t, row, up).0)
  {
    var n := Insert(t, row, up).0;
    forall id | id in n.rows && n.rows[id].parent != 0
      ensures n.rows[id].parent in n.rows && n.rows[n.rows[id].parent].user == n.rows[id].user
    {
      if id in t.rows && id != t.next { assert RowOk(t.rows, id); }
    }
  }

  lemma ResolveRootOwned(t: Table, user: int, tr: RootTrace)
    requires Shape(t) && OwnedByParent(t) && user > 0 && TraceAnswers(t, user, tr)
    ensures var (n, dir) := ResolveRoot(t, user, tr);
      && Shape(n) && OwnedByParent(n) && (dir > 0 ==> dir in n.rows && n.rows[dir].user == user)
  {
    ResolveRootOk(t, user, tr);
    InsertOwned(t, Row(user, 0, ROOT_NAME, Dir, false), tr.inserted);
  }

  lemma ServeOwned(t: Table, s: Session, c: Command)
    requires Shape(t) && SessionOk(t, s) && Possible(t, s, c) && OwnedByParent(t)
    requires s.dir > 0 ==> t.rows[s.dir].user == s.user
    requires c.Login? && c.result > 0 && s.dir != -1 ==> c.result == s.user
    ensures var (n, r) := Serve(t, s, c); OwnedByParent(n) && (r.dir > 0 ==> r.dir in n.rows && n.rows[r.dir].user == r.user)
  {
    match c {
      case Login(result, root) =>
        var user := if result > 0 then result else s.user;
        if user > 0 { ResolveRootOwned(t, user, root); }
      case Register(result, made, root) =>
        if result > 0 {
          ResolveRootOwned(t, result, made.(first := -1));
          ResolveRootOwned(InitRoot(t, result, made.second, made.inserted).0, result, root);
        } else if s.user > 0 {
          ResolveRootOwned(t, s.user, root);
        }
      case Mkdir(arg, answer, up) => if s.dir > 0 { InsertOwned(t, Row(s.user, s.dir, arg, Dir, false), up); }
      case Puts(arg, fileId, up) => if s.dir > 0 { InsertOwned(t, Row(s.user, s.dir, arg, File(fileId), false), up); }
      case Rm(arg, answer, up) => DeleteOwned(t, s.user, answer, up);
      case Cd(arg, answer, up) => CdOwned(t, s, c);
      case _ =>
    }
  }

  lemma DeleteOwned(t: Table, user: int, id: int, up: bool)
    requires Shape(t) && OwnedByParent(t)
    ensures OwnedByParent(Delete(t, user, id, up).0)
  {
    var n := Delete(t, user, id, up).0;
    assert forall k :: k in t.rows ==> Kept(t.rows[k], n.rows[k]);
  }

  lemma CdOwned(t: Table, s: Session, c: Command)
    requires Shape(t) && SessionOk(t, s) && Possible(t, s, c) && OwnedByParent(t) && c.Cd?
    requires s.dir > 0 ==> t.rows[s.dir].user == s.user
    ensures var r := DoCd(t, s, c.arg, c.answer, c.up); r.dir > 0 ==> r.dir in t.rows && t.rows[r.dir].user == r.user
  {
  }

  /** Ownership survives a step exactly when the step is not such a login. */
  lemma OwnershipIff(w: World, step: Step)
    requires WorldOk(w) && Owned(w) && Enabled(w, step)
    ensures Owned(Next(w, step)) <==> StaysOneUser(w, step)
  {
    StepKeepsWorld(w, step);
    var n := Next(w, step);
    if step.Do? {
      var s := w.sessions[step.k];
      if StaysOneUser(w, step) {
        ServeOwned(w.table, s, step.command);
        forall k | 0 <= k < |n.sessions| && n.sessions[k].dir > 0
          ensures n.sessions[k].dir in n.table.rows && n.table.rows[n.sessions[k].dir].user == n.sessions[k].user
        {
          if k != step.k { assert Kept(w.table.rows[w.sessions[k].dir], n.table.rows[w.sessions[k].dir]); }
        }
      } else {
        assert n.sessions[step.k] == s.(user := step.command.result) && s.dir > 0;
      }
    }
  }

  /** Both lookups missed a root that is there (they failed, or ran before another session's insert), and
      the insert went through: nothing in the table forbids a second root. */
  ghost predicate BlindInsert(t: Table, user: int, tr: RootTrace) {
    && tr.first <= 0 && tr.second <= 0 && tr.inserted
    && exists id :: id in t.rows && t.rows[id].parent == 0 && t.rows[id].user == user
  }

  ghost predicate InsertsSecondRoot(t: Table, s: Session, c: Command) {
    match c
    case Login(result, root) =>
      var user := if result > 0 then result else s.user;
      user > 0 && s.dir == -1 && BlindInsert(t, user, root)
    case Register(result, made, root) =>
      if result > 0 then
        || BlindInsert(t, result, made.(first := -1))
        || BlindInsert(InitRoot(t, result, made.second, made.inserted).0, result, root)
      else s.user > 0 && BlindInsert(t, s.user, root)
    case _ => false
  }

  lemma ResolveOneRootIff(t: Table, user: int, tr: RootTrace)
    requires Shape(t) && OneRoot(t) && user > 0 && TraceAnswers(t, user, tr)
    ensures OneRoot(ResolveRoot(t, user, tr).0) <==> !BlindInsert(t, user, tr)
  {
    RootInsertIff(t, user);
  }

  lemma SecondRootStays(t: Table, n: Table)
    requires Grows(t, n) && !OneRoot(t)
    ensures !OneRoot(n)
  {
    var a, b :| a in t.rows && b in t.rows && t.rows[a].parent == 0 && t.rows[b].parent == 0 && t.rows[a].user == t.rows[b].user && a != b;
    assert Kept(t.rows[a], n.rows[a]) && Kept(t.rows[b], n.rows[b]);
  }

  lemma OneRootSame(t: Table, n: Table)
    requires OneRoot(t) && Grows(t, n)
    requires forall id :: id in n.rows && n.rows[id].parent == 0 ==> id in t.rows
    ensures OneRoot(n)
  {
    forall a, b | a in n.rows && b in n.rows && n.rows[a].parent == 0 && n.rows[b].parent == 0 && n.rows[a].user == n.rows[b].user
      ensures a == b
    {
      assert Kept(t.rows[a], n.rows[a]) && Kept(t.rows[b], n.rows[b]);
    }
  }

  /** A user keeps a single root through a step exactly when the step makes no such insert. */
  lemma OneRootIff(w: World, step: Step)
    requires WorldOk(w) && OneRoot(w.table) && Enabled(w, step)
    ensures OneRoot(Next(w, step).table) <==>
      (step.Do? ==> !InsertsSecondRoot(w.table, w.sessions[step.k], step.command))
  {
    if step.Do? {
      var t, s, c := w.table, w.sessions[step.k], step.command;
      ServeOk(t, s, c);
      match c {
        case Login(result, root) =>
          var user := if result > 0 then result else s.user;
          if user > 0 { ResolveOneRootIff(t, user, root); }
        case Register(result, made, root) =>
          if result > 0 {
            RegisterOneRootIff(t, result, made, root);
          } else if s.user > 0 {
            ResolveOneRootIff(t, s.user, root);
          }
        case _ =>
          NoNewRoot(t, s, c);
      }
    }
  }

  lemma NoNewRoot(t: Table, s: Session, c: Command)
    requires Shape(t) && OneRoot(t) && SessionOk(t, s) && Possible(t, s, c) && !c.Login? && !c.Register?
    ensures OneRoot(Serve(t, s, c).0)
  {
    hide UniqueKeys, RowOk, KeyTaken, OneRoot, DoCd;
    ServeOk(t, s, c);
    var n := Serve(t, s, c).0;
    assert forall id :: id in n.rows && id !in t.rows ==> n.rows[id].parent != 0;
    forall id | id in n.rows && n.rows[id].parent == 0 ensures id in t.rows {
    }
    OneRootSame(t, n);
  }

  lemma RegisterOneRootIff(t: Table, user: int, made: RootTrace, root: RootTrace)
    requires Shape(t) && OneRoot(t) && user > 0 && TraceAnswers(t, user, made)
    requires TraceAnswers(InitRoot(t, user, made.second, made.inserted).0, user, root)
    ensures var t1 := InitRoot(t, user, made.second, made.inserted).0;
      OneRoot(ResolveRoot(t1, user, root).0) <==> !BlindInsert(t, user, made.(first := -1)) && !BlindInsert(t1, user, root)
  {
    var t1 := InitRoot(t, user, made.second, made.inserted).0;
    ResolveRootOk(t, user, made.(first := -1));
    ResolveOneRootIff(t, user, made.(first := -1));
    ResolveRootOk(t1, user, root);
    if OneRoot(t1) {
      ResolveOneRootIff(t1, user, root);
    } else {
      SecondRootStays(t1, ResolveRoot(t1, user, root).0);
    }
  }

  /* ---------- the path agrees with the tree ---------- */

  /** What the path of a session in this directory should be. */
  ghost function PathOf(t: Table, dir: int): Text {
    if dir > 0 && Shape(t) && dir in t.rows then Render(Names(t, dir)) else ROOT_PATH
  }

  ghost predicate AgreesWith(t: Table, s: Session) {
    (s.dir > 0 ==> Shape(t) && s.dir in t.rows) && s.path == PathOf(t, s.dir)
  }

  ghost predicate Agrees(w: World) {
    forall k :: 0 <= k < |w.sessions| ==> AgreesWith(w.table, w.sessions[k])
  }

  lemma {:induction false} NamesNonEmpty(t: Table, id: nat)
    requires Shape(t) && id in t.rows
    ensures NonEmptyNames(Names(t, id))
    decreases id
  {
    assert RowOk(t.rows, id);
    if t.rows[id].parent != 0 { NamesNonEmpty(t, t.rows[id].parent); }
  }

  /** When a command keeps the path right, in terms of the session before it:
      a `cd` into a child must pass the length test, a `cd ..` must leave a directory whose name it can
      strip, and a register must find the path at the root. */
  ghost predicate KeepsPath(t: Table, s: Session, c: Command)
    requires Shape(t) && SessionOk(t, s)
  {
    match c
    case Cd(arg, answer, up) =>
      if s.user == -1 || arg == [] || arg == DOT_ARG || arg == SLASH_ARG then true
      else if arg == DOTDOT_ARG then
        ParentAnswer(t, s.dir, up) > 0 ==> StripsCleanly(Names(t, t.rows[s.dir].parent), t.rows[s.dir].name)
      else answer > 0 ==> Fits(s.path, arg)
    case Register(result, _, _) => result > 0 || s.user > 0 ==> s.path == ROOT_PATH
    case _ => true
  }

  lemma AgreesGrows(t: Table, n: Table, s: Session)
    requires Shape(t) && Shape(n) && Grows(t, n) && SessionOk(t, s)
    ensures AgreesWith(n, s) <==> AgreesWith(t, s)
  {
    if s.dir > 0 { GrowsKeepsWalk(t, n, 0, s.dir); }
  }

  lemma CdAgreesIff(t: Table, s: Session, c: Command)
    requires Shape(t) && SessionOk(t, s) && Possible(t, s, c) && AgreesWith(t, s) && c.Cd? && s.user != -1
    ensures AgreesWith(t, DoCd(t, s, c.arg, c.answer, c.up)) <==> KeepsPath(t, s, c)
  {
    var arg := c.arg;
    if arg == [] || arg == DOT_ARG {
    } else if arg == DOTDOT_ARG {
      if ParentAnswer(t, s.dir, c.up) > 0 {
        assert RowOk(t.rows, s.dir);
        var parent := t.rows[s.dir].parent;
        NamesNonEmpty(t, parent);
        StripAgreesIff(Names(t, parent), t.rows[s.dir].name);
      }
    } else if c.answer > 0 && arg != SLASH_ARG {
      var below := Names(t, s.dir);
      NamesNonEmpty(t, s.dir);
      assert Names(t, c.answer) == below + [arg];
      AppendAgrees(below, arg);
      SkippingDisagrees(below, arg);
    }
  }

  /** For the serving session itself. */
  lemma ServeAgreesIff(t: Table, s: Session, c: Command)
    requires Shape(t) && SessionOk(t, s) && Possible(t, s, c) && AgreesWith(t, s)
    ensures Shape(Serve(t, s, c).0)
    ensures AgreesWith(Serve(t, s, c).0, Serve(t, s, c).1) <==> KeepsPath(t, s, c)
  {
    ServeOk(t, s, c);
    var (n, r) := Serve(t, s, c);
    match c {
      case Cd(_, _, _) => if s.user != -1 { CdAgreesIff(t, s, c); }
      case Login(result, root) =>
        var user := if result > 0 then result else s.user;
        if user > 0 { ResolveRootOk(t, user, root); }
        if s.dir != -1 { AgreesGrows(t, n, s); }
      case Register(result, made, root) =>
        if result > 0 {
          ResolveRootOk(t, result, made.(first := -1));
          ResolveRootOk(InitRoot(t, result, made.second, made.inserted).0, result, root);
        } else if s.user > 0 {
          ResolveRootOk(t, s.user, root);
        }
      case Logout =>
      case _ => AgreesGrows(t, n, s);
    }
  }

  /** Path and directory agreement survives a step exactly under that condition on the acting session;
      the other sessions are never affected. */
  lemma AgreementIff(w: World, step: Step)
    requires WorldOk(w) && Agrees(w) && Enabled(w, step)
    ensures Agrees(Next(w, step)) <==> (step.Do? ==> KeepsPath(w.table, w.sessions[step.k], step.command))
  {
    StepKeepsWorld(w, step);
    var n := Next(w, step);
    if step.Do? {
      ServeAgreesIff(w.table, w.sessions[step.k], step.command);
      forall k | 0 <= k < |w.sessions| && k != step.k
        ensures AgreesWith(n.table, n.sessions[k])
      {
        AgreesGrows(w.table, n.table, w.sessions[k]);
      }
      assert n.sessions[step.k] == Serve(w.table, w.sessions[step.k], step.command).1;
    } else {
      assert forall k :: 0 <= k < |w.sessions| ==> n.sessions[k] == w.sessions[k];
    }
  }

  /* ---------- over whole runs ---------- */

  /** Each command of the run meets the condition of AgreementIff in the state it meets. */
  ghost predicate AllKeepPath(w: World, steps: seq<Step>)
    requires WorldOk(w) && Feasible(w, steps)
    decreases |steps|
  {
    steps == [] || (
      StepKeepsWorld(w, steps[0]);
      && (steps[0].Do? ==> KeepsPath(w.table, w.sessions[steps[0].k], steps[0].command))
      && AllKeepPath(Next(w, steps[0]), steps[1..]))
  }

  ghost predicate AllStayOneUser(w: World, steps: seq<Step>)
    requires Feasible(w, steps)
    decreases |steps|
  {
    steps == [] || (StaysOneUser(w, steps[0]) && AllStayOneUser(Next(w, steps[0]), steps[1..]))
  }

  ghost predicate AllSeeRoots(w: World, steps: seq<Step>)
    requires Feasible(w, steps)
    decreases |steps|
  {
    steps == [] || (
      && (steps[0].Do? ==> !InsertsSecondRoot(w.table, w.sessions[steps[0].k], steps[0].command))
      && AllSeeRoots(Next(w, steps[0]), steps[1..]))
  }

  /** Every session's path is the walk from its directory to the root. */
  lemma {:induction false} PathsAgreeOverRuns(w: World, steps: seq<Step>)
    requires WorldOk(w) && Agrees(w) && Feasible(w, steps) && AllKeepPath(w, steps)
    ensures Agrees(After(w, steps))
    decreases |steps|
  {
    if steps != [] {
      StepKeepsWorld(w, steps[0]);
      AgreementIff(w, steps[0]);
      PathsAgreeOverRuns(Next(w, steps[0]), steps[1..]);
    }
  }

  /** Over every run without a login on top of somebody else's session and without a blind root insert:
      entries and sessions belong to the owner of their directory, walks end at that user's only root,
      and child lookup has one answer. */
  lemma {:induction false} OwnershipOverRuns(w: World, steps: seq<Step>)
    requires WorldOk(w) && Owned(w) && OneRoot(w.table) && Feasible(w, steps)
    requires AllStayOneUser(w, steps) && AllSeeRoots(w, steps)
    ensures var n := After(w, steps);
      && WorldOk(n) && Owned(n) && OneRoot(n.table)
      && (forall id :: id in n.table.rows ==> n.table.rows[RootOf(n.table, id)].user == n.table.rows[id].user)
    ensures forall parent, name, a, b ::
      Entry(After(w, steps).table, parent, name, false, false, a) && Entry(After(w, steps).table, parent, name, false, false, b) ==> a == b
    decreases |steps|
  {
    if steps != [] {
      StepKeepsWorld(w, steps[0]);
      OwnershipIff(w, steps[0]);
      OneRootIff(w, steps[0]);
      OwnershipOverRuns(Next(w, steps[0]), steps[1..]);
    } else {
      forall id | id in w.table.rows ensures w.table.rows[RootOf(w.table, id)].user == w.table.rows[id].user {
        WalkEndsAtOwnRoot(w.table, id);
      }
      forall parent, name, a, b | Entry(w.table, parent, name, false, false, a) && Entry(w.table, parent, name, false, false, b)
        ensures a == b
      {
        LookupIsFunction(w.table, parent, name, a, b);
      }
    }
  }

  ghost predicate ByOthers(steps: seq<Step>, k: nat) {
    forall i :: 0 <= i < |steps| ==> steps[i].Do? ==> steps[i].k != k
  }

  lemma {:induction false} OthersLeaveSession(w: World, steps: seq<Step>, k: nat)
    requires WorldOk(w) && Feasible(w, steps) && k < |w.sessions| && ByOthers(steps, k)
    ensures WorldOk(After(w, steps)) && Grows(w.table, After(w, steps).table)
    ensures k < |After(w, steps).sessions| && After(w, steps).sessions[k] == w.sessions[k]
    decreases |steps|
  {
    if steps != [] {
      var n := Next(w, steps[0]);
      StepKeepsWorld(w, steps[0]);
      assert n.sessions[k] == w.sessions[k];
      OthersLeaveSession(n, steps[1..], k);
      GrowsTransitive(w.table, n.table, After(n, steps[1..]).table);
    }
  }

  /** `cd name`, whatever the other sessions do meanwhile, then `cd ..`: the session is back where it was
      exactly when nobody removed the child and the name can be stripped from the path. */
  lemma CdThenBackIff(w: World, k: nat, name: Text, answer: int, steps: seq<Step>)
    requires WorldOk(w) && k < |w.sessions| && w.sessions[k].user != -1 && AgreesWith(w.table, w.sessions[k])
    requires PlainName(name) && Fits(w.sessions[k].path, name) && answer > 0
    requires Enabled(w, Do(k, Cd(name, answer, true)))
    requires Feasible(Next(w, Do(k, Cd(name, answer, true))), steps) && ByOthers(steps, k)
    ensures k < |After(Next(w, Do(k, Cd(name, answer, true))), steps).sessions|
    ensures var mid := After(Next(w, Do(k, Cd(name, answer, true))), steps);
      Next(mid, Do(k, Cd(DOTDOT_ARG, -1, true))).sessions[k] == w.sessions[k] <==>
        answer in mid.table.rows && !mid.table.rows[answer].tomb && StripsCleanly(Names(w.table, w.sessions[k].dir), name)
  {
    var s := w.sessions[k];
    var w1 := Next(w, Do(k, Cd(name, answer, true)));
    StepKeepsWorld(w, Do(k, Cd(name, answer, true)));
    OthersLeaveSession(w1, steps, k);
    var mid := After(w1, steps);
    assert Kept(w.table.rows[answer], mid.table.rows[answer]);
    assert RowOk(w.table.rows, answer);
    NamesNonEmpty(w.table, s.dir);
    AppendAgrees(Names(w.table, s.dir), name);
    StripAgreesIff(Names(w.table, s.dir), name);
  }

  /* ---------- removed directories ---------- */

  ghost predicate Outside(t: Table, d: nat, s: Session) {
    s.dir > 0 ==> Shape(t) && s.dir in t.rows && !Under(t, d, s.dir)
  }

  /** `d` has been removed, and it is not a root. */
  ghost predicate Removed(t: Table, d: nat) {
    d in t.rows && t.rows[d].tomb && t.rows[d].parent != 0
  }

  lemma OutsideGrows(t: Table, n: Table, d: nat, s: Session)
    requires Shape(t) && Shape(n) && Grows(t, n) && SessionOk(t, s) && Outside(t, d, s)
    ensures Outside(n, d, s)
  {
    if s.dir > 0 { GrowsKeepsWalk(t, n, d, s.dir); }
  }

  lemma ServeStaysOutside(t: Table, s: Session, c: Command, d: nat)
    requires Shape(t) && SessionOk(t, s) && Possible(t, s, c) && Removed(t, d) && Outside(t, d, s)
    ensures Outside(Serve(t, s, c).0, d, Serve(t, s, c).1)
  {
    hide UniqueKeys, RowOk, KeyTaken;
    ServeOk(t, s, c);
    var (n, r) := Serve(t, s, c);
    OutsideGrows(t, n, d, s);
    assert Kept(t.rows[d], n.rows[d]);
    match c {
      case Login(result, root) =>
        var user := if result > 0 then result else s.user;
        if user > 0 { ResolveRootOk(t, user, root); }
      case Register(result, made, root) =>
        if result > 0 {
          ResolveRootOk(t, result, made.(first := -1));
          ResolveRootOk(InitRoot(t, result, made.second, made.inserted).0, result, root);
        } else if s.user > 0 {
          ResolveRootOk(t, s.user, root);
        }
      case _ =>
    }
  }

  /** Once `d` is removed, no session outside its subtree ever enters it, nor does any that connects
      later, whatever the sessions do, rows added inside it later included. */
  lemma {:induction false} RemovedSubtreeIsClosed(w: World, steps: seq<Step>, d: nat, j: nat)
    requires WorldOk(w) && Feasible(w, steps) && Removed(w.table, d)
    requires j < |w.sessions| ==> Outside(w.table, d, w.sessions[j])
    ensures j < |After(w, steps).sessions| ==> Outside(After(w, steps).table, d, After(w, steps).sessions[j])
    ensures Removed(After(w, steps).table, d)
    decreases |steps|
  {
    if steps != [] {
      var step := steps[0];
      var n := Next(w, step);
      StepKeepsWorld(w, step);
      assert Kept(w.table.rows[d], n.table.rows[d]);
      if step.Do? && step.k == j {
        ServeStaysOutside(w.table, w.sessions[j], step.command, d);
      } else if j < |w.sessions| {
        assert n.sessions[j] == w.sessions[j];
        OutsideGrows(w.table, n.table, d, w.sessions[j]);
      }
      RemovedSubtreeIsClosed(n, steps[1..], d, j);
    }
  }

  /** A successful `rm` removes the entry it found exactly when that row belongs to the session's user,
      which ownership guarantees; the reply does not tell the two cases apart. */
  lemma RmRemovesIff(w: World, k: nat, arg: Text, answer: int)
    requires WorldOk(w) && k < |w.sessions| && w.sessions[k].user != -1 && arg != [] && answer > 0
    requires Enabled(w, Do(k, Rm(arg, answer, true)))
    requires !w.table.rows[answer].tomb
    ensures Removed(Next(w, Do(k, Rm(arg, answer, true))).table, answer) <==> w.table.rows[answer].user == w.sessions[k].user
    ensures Owned(w) ==> w.table.rows[answer].user == w.sessions[k].user
    ensures Delete(w.table, w.sessions[k].user, answer, true).1 == 0
  {
    assert RowOk(w.table.rows, answer);
  }

  /** rm of a directory, end to end: from the moment it succeeds, every session that is outside the
      directory, and every session that connects later, stays outside it for ever. */
  lemma RmCutsOffSubtree(w: World, k: nat, arg: Text, answer: int, steps: seq<Step>, j: nat)
    requires WorldOk(w) && Owned(w) && k < |w.sessions| && w.sessions[k].user != -1 && arg != [] && answer > 0
    requires Enabled(w, Do(k, Rm(arg, answer, true)))
    requires Feasible(Next(w, Do(k, Rm(arg, answer, true))), steps)
    requires j < |w.sessions| ==> Outside(w.table, answer, w.sessions[j])
    ensures var n := After(Next(w, Do(k, Rm(arg, answer, true))), steps);
      j < |n.sessions| ==> Outside(n.table, answer, n.sessions[j])
  {
    var step := Do(k, Rm(arg, answer, true));
    StepKeepsWorld(w, step);
    assert RowOk(w.table.rows, answer);
    if j < |w.sessions| { OutsideGrows(w.table, Next(w, step).table, answer, w.sessions[j]); }
    RemovedSubtreeIsClosed(Next(w, step), steps, answer, j);
  }

  /** The name of a removed entry never comes back to life in that directory for that user. */
  lemma RemovedNameNeverReturns(w: World, steps: seq<Step>, id: nat, other: nat)
    requires WorldOk(w) && Feasible(w, steps) && Removed(w.table, id)
    requires other in After(w, steps).table.rows && SameKey(After(w, steps).table.rows[other], w.table.rows[id])
    ensures other == id && After(w, steps).table.rows[other].tomb
  {
    ForestOverRuns(w, steps);
    var n := After(w, steps).table;
    assert Kept(w.table.rows[id], n.rows[id]);
  }
}
