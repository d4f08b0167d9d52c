/** What each packet does to the table and to its session, row by row, for every way in which its queries
    can work or fail, and what that means for the lookups that follow (src/server/session.c,
    src/server/file_cmds.c, src/server/dao_vfs.c). Nothing else changes the table between the queries of
    one packet here; `Sessions` has the answers that are out of date. */
module SessionEffects {
  import opened Bytes
  import opened Vfs
  import opened PathText
  import opened Sessions

  /** A received packet, by command type. The numbers are what authentication and the upload returned. */
  datatype Packet =
    | LoginPacket(result: int)
    | RegisterPacket(result: int)
    | LogoutPacket
    | CdPacket(arg: Text)
    | MkdirPacket(arg: Text)
    | RmPacket(arg: Text)
    | PutsPacket(arg: Text, fileId: int)
    | OtherPacket

  /** Which queries work when a root is looked up, looked up again, and inserted. */
  datatype RootFate = RootFate(first: bool, second: bool, insert: bool)

  /** Which queries of a packet work: the lookup, the change behind it, the root made inside a register,
      and the root entered at the end. */
  datatype Fate = Fate(lookup: bool, change: bool, made: RootFate, root: RootFate)

  const ALL_WORK := Fate(true, true, RootFate(true, true, true), RootFate(true, true, true))

  /** One packet of one client, and what its queries will do. */
  datatype Turn = Turn(k: nat, packet: Packet, fate: Fate)

  /* ---------- the effects ---------- */

  ghost predicate HasRoot(t: Table, user: int) {
    exists id :: id in t.rows && IsRoot(t, user, id)
  }

  function WithRow(t: Table, row: Row): Table {
    Table(t.rows[t.next := row], t.next + 1)
  }

  function Tombed(t: Table, id: nat): Table
    requires id in t.rows
  {
    t.(rows := t.rows[id := t.rows[id].(tomb := true)])
  }

  /** Entering the user's root: a root that is there and that a lookup finds, or else a new one. */
  ghost predicate EntersRoot(t: Table, user: int, fate: RootFate, n: Table, dir: int) {
    if HasRoot(t, user) && (fate.first || fate.second) then n == t && IsRoot(t, user, dir)
    else if fate.insert then n == WithRow(t, Row(user, 0, [SLASH], Dir, false)) && dir == t.next
    else n == t && dir == -1
  }

  ghost predicate LivesIn(t: Table, dir: int, name: Text, dirsOnly: bool, id: int) {
    && id > 0 && id in t.rows && dir > 0 && !t.rows[id].tomb
    && t.rows[id].parent == dir && t.rows[id].name == name && (dirsOnly ==> t.rows[id].kind.Dir?)
  }

  ghost predicate SomeLivesIn(t: Table, dir: int, name: Text, dirsOnly: bool) {
    exists id :: id in t.rows && LivesIn(t, dir, name, dirsOnly, id)
  }

  ghost predicate NameFree(t: Table, user: int, dir: int, name: Text) {
    && user > 0 && dir > 0 && dir in t.rows
    && forall id :: id in t.rows ==> !(t.rows[id].user == user && t.rows[id].parent == dir && t.rows[id].name == name)
  }

  ghost predicate Logins(t: Table, s: Session, result: int, fate: Fate, n: Table, r: Session) {
    && r.user == (if result > 0 then result else s.user) && r.path == s.path
    && if r.user > 0 && s.dir == -1 then EntersRoot(t, r.user, fate.root, n, r.dir) else n == t && r.dir == s.dir
  }

  ghost predicate Registers(t: Table, s: Session, result: int, fate: Fate, n: Table, r: Session) {
    && r.user == (if result > 0 then result else s.user) && r.path == s.path
    && if result > 0 then
         // the root is first made inside dao_register_user, which looks it up once
         exists mid, made :: EntersRoot(t, result, fate.made.(first := false), mid, made) && EntersRoot(mid, result, fate.root, n, r.dir)
       else if s.user > 0 then EntersRoot(t, s.user, fate.root, n, r.dir)
       else n == t && r.dir == s.dir
  }

  ghost predicate Changes(t: Table, s: Session, arg: Text, lookup: bool, r: Session) {
    if arg == [] || arg == [DOT] then r == s
    else if arg == [DOT, DOT] then
      if lookup && s.dir > 0 && s.dir in t.rows && !t.rows[s.dir].tomb && t.rows[s.dir].parent != 0
      then r == Session(s.user, t.rows[s.dir].parent, StripLast(s.path)) else r == s
    else if arg == [SLASH] then
      if lookup && s.user > 0 && HasRoot(t, s.user)
      then r.user == s.user && IsRoot(t, s.user, r.dir) && r.path == [SLASH] else r == s
    else
      if lookup && SomeLivesIn(t, s.dir, arg, true)
      then r.user == s.user && LivesIn(t, s.dir, arg, true, r.dir)
        && r.path == (if |s.path| + |arg| + 2 > 512 then s.path else if s.path == [SLASH] then s.path + arg else s.path + [SLASH] + arg)
      else r == s
  }

  ghost predicate Makes(t: Table, s: Session, arg: Text, fate: Fate, n: Table) {
    n == if arg != [] && fate.change && NameFree(t, s.user, s.dir, arg) && !(fate.lookup && SomeLivesIn(t, s.dir, arg, true))
         then WithRow(t, Row(s.user, s.dir, arg, Dir, false)) else t
  }

  ghost predicate Removes(t: Table, s: Session, arg: Text, fate: Fate, n: Table) {
    if arg != [] && fate.lookup && SomeLivesIn(t, s.dir, arg, false)
    then
      exists id ::
        && LivesIn(t, s.dir, arg, false, id)
        && n == (if fate.change && s.user > 0 && t.rows[id].user == s.user then Tombed(t, id) else t)
    else n == t
  }

  ghost predicate Puts(t: Table, s: Session, arg: Text, fileId: int, fate: Fate, n: Table) {
    n == if arg != [] && fileId > 0 && fate.change && NameFree(t, s.user, s.dir, arg)
         then WithRow(t, Row(s.user, s.dir, arg, File(fileId), false)) else t
  }

  /** Table `t` and session `s` become `n` and `r`. Before a login only login, register and logout are served. */
  ghost predicate Does(t: Table, s: Session, p: Packet, fate: Fate, n: Table, r: Session) {
    match p
    case LoginPacket(result) => Logins(t, s, result, fate, n, r)
    case RegisterPacket(result) => Registers(t, s, result, fate, n, r)
    case LogoutPacket => n == t && r == Session(-1, -1, [SLASH])
    case OtherPacket => n == t && r == s
    case CdPacket(arg) => n == t && if s.user == -1 then r == s else Changes(t, s, arg, fate.lookup, r)
    case MkdirPacket(arg) => r == s && if s.user == -1 then n == t else Makes(t, s, arg, fate, n)
    case RmPacket(arg) => r == s && if s.user == -1 then n == t else Removes(t, s, arg, fate, n)
    case PutsPacket(arg, fileId) => r == s && if s.user == -1 then n == t else Puts(t, s, arg, fileId, fate, n)
  }

  /** One turn in the world of sessions: the others stay as they are. */
  ghost predicate TurnDone(w: World, turn: Turn, n: World) {
    && turn.k < |w.sessions| == |n.sessions|
    && (forall j :: 0 <= j < |w.sessions| && j != turn.k ==> n.sessions[j] == w.sessions[j])
    && Does(w.table, w.sessions[turn.k], turn.packet, turn.fate, n.table, n.sessions[turn.k])
  }

  /* ---------- the commands of `Sessions` with these answers ---------- */

  /** The command is this packet with the database's answers filled in. */
  ghost predicate Labels(c: Command, p: Packet) {
    match p
    case LoginPacket(result) => c.Login? && c.result == result
    case RegisterPacket(result) => c.Register? && c.result == result
    case LogoutPacket => c == Logout
    case CdPacket(arg) => c.Cd? && c.arg == arg
    case MkdirPacket(arg) => c.Mkdir? && c.arg == arg
    case RmPacket(arg) => c.Rm? && c.arg == arg
    case PutsPacket(arg, fileId) => c.Puts? && c.arg == arg && c.fileId == fileId
    case OtherPacket => c == Other
  }

  ghost predicate RootFound(t: Table, user: int, works: bool, r: int) {
    if works && user > 0 && HasRoot(t, user) then IsRoot(t, user, r) else r == -1
  }

  ghost predicate TraceExact(t: Table, user: int, fate: RootFate, tr: RootTrace) {
    && RootFound(t, user, fate.first, tr.first)
    && (tr.first <= 0 ==> RootFound(t, user, fate.second, tr.second) && tr.inserted == fate.insert)
  }

  /** The answers are what these queries give on this very table. */
  ghost predicate Exact(t: Table, s: Session, c: Command, fate: Fate) {
    match c
    case Login(result, root) =>
      var user := if result > 0 then result else s.user;
      user > 0 && s.dir == -1 ==> TraceExact(t, user, fate.root, root)
    case Register(result, made, root) =>
      if result > 0 then
        && TraceExact(t, result, fate.made.(first := false), made.(first := -1))
        && TraceExact(InitRoot(t, result, made.second, made.inserted).0, result, fate.root, root)
      else s.user > 0 ==> TraceExact(t, s.user, fate.root, root)
    case Cd(arg, answer, up) =>
      if s.user == -1 then true
      else if arg == DOTDOT_ARG then up == fate.lookup
      else if arg == SLASH_ARG then RootFound(t, s.user, fate.lookup, answer)
      else PlainName(arg) ==> ChildAnswer(t, s.dir, arg, true, false, fate.lookup, answer)
    case Mkdir(arg, answer, up) =>
      s.user != -1 && arg != [] ==> ChildAnswer(t, s.dir, arg, true, false, fate.lookup, answer) && up == fate.change
    case Rm(arg, answer, up) =>
      s.user != -1 && arg != [] ==> ChildAnswer(t, s.dir, arg, false, false, fate.lookup, answer) && up == fate.change
    case Puts(arg, _, up) => s.user != -1 && arg != [] ==> up == fate.change
    case _ => true
  }

  lemma RootEntered(t: Table, user: int, fate: RootFate, tr: RootTrace)
    requires user > 0 && TraceExact(t, user, fate, tr)
    ensures EntersRoot(t, user, fate, ResolveRoot(t, user, tr).0, ResolveRoot(t, user, tr).1)
  {
  }

  lemma LoginDoes(t: Table, s: Session, c: Command, fate: Fate)
    requires c.Login? && Exact(t, s, c, fate)
    ensures Logins(t, s, c.result, fate, DoLogin(t, s, c).0, DoLogin(t, s, c).1)
  {
    hide EntersRoot, ResolveRoot, TraceExact;
    var user := if c.result > 0 then c.result else s.user;
    if user > 0 && s.dir == -1 { RootEntered(t, user, fate.root, c.root); }
  }

  lemma RegisterDoes(t: Table, s: Session, c: Command, fate: Fate)
    requires c.Register? && Exact(t, s, c, fate)
    ensures Registers(t, s, c.result, fate, DoRegister(t, s, c).0, DoRegister(t, s, c).1)
  {
    hide EntersRoot, TraceExact;
    if c.result > 0 {
      var made := c.made.(first := -1);
      RootEntered(t, c.result, fate.made.(first := false), made);
      RootEntered(ResolveRoot(t, c.result, made).0, c.result, fate.root, c.root);
    } else if s.user > 0 {
      RootEntered(t, s.user, fate.root, c.root);
    }
  }

  lemma CdDoes(t: Table, s: Session, c: Command, fate: Fate)
    requires c.Cd? && s.user != -1 && Exact(t, s, c, fate)
    ensures Changes(t, s, c.arg, fate.lookup, DoCd(t, s, c.arg, c.answer, c.up))
  {
    if PlainName(c.arg) && c.answer <= 0 && fate.lookup {
      forall id | id in t.rows ensures !LivesIn(t, s.dir, c.arg, true, id) {
        assert !LiveEntry(t, s.dir, c.arg, true, false, id);
      }
    }
  }

  lemma MkdirDoes(t: Table, s: Session, c: Command, fate: Fate)
    requires c.Mkdir? && s.user != -1 && Exact(t, s, c, fate)
    ensures Makes(t, s, c.arg, fate, ServeFiles(t, s, c).0)
  {
    if c.arg != [] {
      if c.answer > 0 {
        assert LivesIn(t, s.dir, c.arg, true, c.answer);
      } else if fate.lookup {
        forall id | id in t.rows ensures !LivesIn(t, s.dir, c.arg, true, id) {
          assert !LiveEntry(t, s.dir, c.arg, true, false, id);
        }
      }
    }
  }

  lemma RmDoes(t: Table, s: Session, c: Command, fate: Fate)
    requires c.Rm? && s.user != -1 && Exact(t, s, c, fate)
    ensures Removes(t, s, c.arg, fate, ServeFiles(t, s, c).0)
  {
    if c.arg != [] {
      if c.answer > 0 {
        assert LivesIn(t, s.dir, c.arg, false, c.answer);
      } else if fate.lookup {
        forall id | id in t.rows ensures !LivesIn(t, s.dir, c.arg, false, id) {
          assert !LiveEntry(t, s.dir, c.arg, false, false, id);
        }
      }
    }
  }

  /** With such answers a command of `Sessions` does exactly what its packet should. */
  lemma ExactDoes(t: Table, s: Session, c: Command, p: Packet, fate: Fate)
    requires Exact(t, s, c, fate) && Labels(c, p)
    ensures Does(t, s, p, fate, Serve(t, s, c).0, Serve(t, s, c).1)
  {
    hide Logins, Registers, Changes, Makes, Removes, DoLogin, DoRegister, DoCd, Exact;
    match c {
      case Login(_, _) => LoginDoes(t, s, c, fate);
      case Register(_, _, _) => RegisterDoes(t, s, c, fate);
      case Cd(_, _, _) => if s.user != -1 { CdDoes(t, s, c, fate); }
      case Mkdir(_, _, _) => if s.user != -1 { MkdirDoes(t, s, c, fate); }
      case Rm(_, _, _) => if s.user != -1 { RmDoes(t, s, c, fate); }
      case Puts(_, _, _) => if s.user != -1 { PutsDoes(t, s, c, fate); }
      case _ =>
    }
  }

  lemma PutsDoes(t: Table, s: Session, c: Command, fate: Fate)
    requires c.Puts? && s.user != -1 && Exact(t, s, c, fate)
    ensures Puts(t, s, c.arg, c.fileId, fate, ServeFiles(t, s, c).0)
  {
  }

  /* ---------- when every query works ---------- */

  /** A logged-in session in a directory of its own, in a table where entries belong to their directory's
      owner. */
  ghost predicate AtHome(t: Table, s: Session) {
    && Shape(t) && OwnedByParent(t)
    && s.user > 0 && s.dir > 0 && s.dir in t.rows && t.rows[s.dir].kind.Dir? && t.rows[s.dir].user == s.user
  }

  lemma OnlyOneLives(t: Table, s: Session, name: Text, a: int, b: int)
    requires AtHome(t, s) && LivesIn(t, s.dir, name, false, a) && LivesIn(t, s.dir, name, false, b)
    ensures a == b && t.rows[a].user == s.user
  {
    LookupIsFunction(t, s.dir, name, a, b);
  }

  /** rm of a live entry, file or directory, tombs exactly that row, and no lookup finds the name any more;
      of a name that is not there it changes nothing. */
  lemma RmTombsExactly(t: Table, s: Session, arg: Text, n: Table, r: Session)
    requires AtHome(t, s) && arg != [] && Does(t, s, RmPacket(arg), ALL_WORK, n, r)
    ensures r == s
    ensures forall id :: LivesIn(t, s.dir, arg, false, id) ==> n == Tombed(t, id)
    ensures !SomeLivesIn(t, s.dir, arg, false) ==> n == t
    ensures !SomeLivesIn(n, s.dir, arg, false)
  {
    if id :| id in t.rows && LivesIn(t, s.dir, arg, false, id) {
      forall other | LivesIn(t, s.dir, arg, false, other) ensures other == id && t.rows[id].user == s.user {
        OnlyOneLives(t, s, arg, id, other);
      }
      assert n == Tombed(t, id);
      assert forall k :: k in n.rows && k != id ==> k in t.rows && n.rows[k] == t.rows[k];
    }
  }

  /** mkdir of a name never used there makes that directory and nothing else, and it is then what `cd`
      finds; of a used name, removed or not, it changes nothing. */
  lemma MkdirMakesExactly(t: Table, s: Session, arg: Text, n: Table, r: Session)
    requires AtHome(t, s) && arg != [] && Does(t, s, MkdirPacket(arg), ALL_WORK, n, r)
    ensures r == s && AtHome(n, s)
    ensures NameFree(t, s.user, s.dir, arg) ==>
      && n == WithRow(t, Row(s.user, s.dir, arg, Dir, false)) && t.next !in t.rows
      && LivesIn(n, s.dir, arg, true, t.next)
    ensures !NameFree(t, s.user, s.dir, arg) ==> n == t
  {
    NewEntry(t, s, Row(s.user, s.dir, arg, Dir, false));
    if SomeLivesIn(t, s.dir, arg, true) {
      var id :| id in t.rows && LivesIn(t, s.dir, arg, true, id);
      OnlyOneLives(t, s, arg, id, id);
    }
  }

  lemma NewEntry(t: Table, s: Session, row: Row)
    requires AtHome(t, s) && row.user == s.user && row.parent == s.dir && row.name != []
    ensures t.next !in t.rows
    ensures NameFree(t, s.user, s.dir, row.name) ==> AtHome(WithRow(t, row), s)
  {
    if NameFree(t, s.user, s.dir, row.name) {
      InsertShape(t, row, true);
      InsertOwned(t, row, true);
      assert Insert(t, row, true).0 == WithRow(t, row);
    }
  }

  /** puts makes the entry of the file in the same way. */
  lemma PutsMakesExactly(t: Table, s: Session, arg: Text, fileId: int, n: Table, r: Session)
    requires AtHome(t, s) && arg != [] && fileId > 0 && Does(t, s, PutsPacket(arg, fileId), ALL_WORK, n, r)
    ensures r == s && AtHome(n, s)
    ensures NameFree(t, s.user, s.dir, arg) ==>
      && n == WithRow(t, Row(s.user, s.dir, arg, File(fileId), false)) && t.next !in t.rows
      && LivesIn(n, s.dir, arg, false, t.next)
      && forall id :: LivesIn(n, s.dir, arg, false, id) ==> id == t.next
    ensures !NameFree(t, s.user, s.dir, arg) ==> n == t
  {
    NewEntry(t, s, Row(s.user, s.dir, arg, File(fileId), false));
    if NameFree(t, s.user, s.dir, arg) {
      forall id | LivesIn(n, s.dir, arg, false, id) ensures id == t.next {
        OnlyOneLives(n, s, arg, id, t.next);
      }
    }
  }

  /** `cd name` enters the live directory of that name, and stays put when there is none. */
  lemma CdEnters(t: Table, s: Session, arg: Text, n: Table, r: Session)
    requires AtHome(t, s) && PlainName(arg) && Does(t, s, CdPacket(arg), ALL_WORK, n, r)
    ensures n == t && r.user == s.user
    ensures forall id :: LivesIn(t, s.dir, arg, true, id) ==> r.dir == id && Names(t, id) == Names(t, s.dir) + [arg]
    ensures !SomeLivesIn(t, s.dir, arg, true) ==> r == s
  {
    forall id | LivesIn(t, s.dir, arg, true, id)
      ensures r.dir == id && Names(t, id) == Names(t, s.dir) + [arg]
    {
      OnlyOneLives(t, s, arg, id, r.dir);
    }
  }

  /** `cd ..` goes to the parent of a directory that is not removed, and stays put at a root. */
  lemma CdUpLeaves(t: Table, s: Session, n: Table, r: Session)
    requires AtHome(t, s) && Does(t, s, CdPacket(DOTDOT_ARG), ALL_WORK, n, r)
    ensures n == t
    ensures !t.rows[s.dir].tomb && t.rows[s.dir].parent != 0 ==>
      && r.dir == t.rows[s.dir].parent && r.dir in t.rows
      && Names(t, s.dir) == Names(t, r.dir) + [t.rows[s.dir].name]
    ensures t.rows[s.dir].tomb || t.rows[s.dir].parent == 0 ==> r == s
  {
    assert RowOk(t.rows, s.dir);
  }

  /** `cd /` goes to the user's root, with the path "/". */
  lemma CdRootReturns(t: Table, s: Session, root: int, n: Table, r: Session)
    requires Shape(t) && OneRoot(t) && s.user > 0 && IsRoot(t, s.user, root) && Does(t, s, CdPacket(SLASH_ARG), ALL_WORK, n, r)
    ensures n == t && r == Session(s.user, root, ROOT_PATH) && Names(t, root) == []
  {
  }

  /** A login of a client that is logged out ends at the user's only root, which is made exactly when
      there was none. */
  lemma LoginEnters(t: Table, result: int, n: Table, r: Session)
    requires Shape(t) && OneRoot(t) && result > 0 && Does(t, LOGGED_OUT, LoginPacket(result), ALL_WORK, n, r)
    ensures Shape(n) && OneRoot(n) && r.user == result && r.path == ROOT_PATH
    ensures IsRoot(n, result, r.dir) && forall id :: IsRoot(n, result, id) ==> id == r.dir
    ensures HasRoot(t, result) ==> n == t
    ensures !HasRoot(t, result) ==> n == WithRow(t, Row(result, 0, ROOT_NAME, Dir, false)) && r.dir == t.next
  {
    EntersOnlyRoot(t, result, n, r.dir);
  }

  lemma EntersOnlyRoot(t: Table, user: int, n: Table, dir: int)
    requires Shape(t) && OneRoot(t) && user > 0 && EntersRoot(t, user, ALL_WORK.root, n, dir)
    ensures Shape(n) && OneRoot(n) && IsRoot(n, user, dir) && HasRoot(n, user)
    ensures forall id :: IsRoot(n, user, id) ==> id == dir
  {
    var row := Row(user, 0, ROOT_NAME, Dir, false);
    InsertShape(t, row, true);
    if !HasRoot(t, user) {
      assert n == Insert(t, row, true).0;
      RootInsertIff(t, user);
      forall id | id in t.rows ensures !(t.rows[id].parent == 0 && t.rows[id].user == user) {
        assert RowOk(t.rows, id) && !IsRoot(t, user, id);
      }
    }
    assert dir in n.rows && IsRoot(n, user, dir);
  }

  /** The same for a register. */
  lemma RegisterEnters(t: Table, s: Session, result: int, n: Table, r: Session)
    requires Shape(t) && OneRoot(t) && result > 0 && Does(t, s, RegisterPacket(result), ALL_WORK, n, r)
    ensures Shape(n) && OneRoot(n) && r.user == result
    ensures IsRoot(n, result, r.dir) && forall id :: IsRoot(n, result, id) ==> id == r.dir
    ensures HasRoot(t, result) ==> n == t
    ensures !HasRoot(t, result) ==> n == WithRow(t, Row(result, 0, ROOT_NAME, Dir, false)) && r.dir == t.next
  {
    var mid, made :|
      EntersRoot(t, result, ALL_WORK.made.(first := false), mid, made) && EntersRoot(mid, result, ALL_WORK.root, n, r.dir);
    assert EntersRoot(t, result, ALL_WORK.root, mid, made);
    EntersOnlyRoot(t, result, mid, made);
    EntersOnlyRoot(mid, result, n, r.dir);
  }

  /** mkdir of a free name and `cd` into it, with room in the path: the session stands in the new directory,
      and its path gained the name. */
  lemma MkdirThenCd(t: Table, s: Session, arg: Text, t1: Table, s1: Session, t2: Table, s2: Session)
    requires AtHome(t, s) && PlainName(arg) && Fits(s.path, arg) && NameFree(t, s.user, s.dir, arg)
    requires Does(t, s, MkdirPacket(arg), ALL_WORK, t1, s1) && Does(t1, s1, CdPacket(arg), ALL_WORK, t2, s2)
    ensures t2 == WithRow(t, Row(s.user, s.dir, arg, Dir, false))
    ensures s2 == Session(s.user, t.next, Appended(s.path, arg))
  {
    MkdirMakesExactly(t, s, arg, t1, s1);
    CdEnters(t1, s1, arg, t2, s2);
  }

  /** rm and mkdir again: the name is gone for good. */
  lemma RmThenMkdirFails(t: Table, s: Session, arg: Text, id: int, t1: Table, s1: Session, t2: Table, s2: Session)
    requires AtHome(t, s) && arg != [] && LivesIn(t, s.dir, arg, false, id)
    requires Does(t, s, RmPacket(arg), ALL_WORK, t1, s1) && Does(t1, s1, MkdirPacket(arg), ALL_WORK, t2, s2)
    ensures t1 == Tombed(t, id) && t2 == t1
  {
    RmTombsExactly(t, s, arg, t1, s1);
    OnlyOneLives(t, s, arg, id, id);
    assert t1.rows[id].user == s.user && t1.rows[id].parent == s.dir && t1.rows[id].name == arg;
  }
}
