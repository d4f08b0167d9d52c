/** Runs of the sessions: when the commands alone keep every path right, and runs of an empty server in
    which a property of `Sessions` fails (src/server/session.c, src/server/file_cmds.c). */
module SessionRuns {
  import opened Bytes
  import opened Vfs
  import opened PathText
  import opened Sessions

  /* ---------- agreement from the commands alone ---------- */

  /** No name below a root has a slash. */
  ghost predicate SlashFree(t: Table) {
    forall id :: id in t.rows && t.rows[id].parent != 0 ==> SLASH !in t.rows[id].name
  }

  /** How much the path of session `k` can grow over the run. */
  function Growth(steps: seq<Step>, k: nat): nat
    decreases |steps|
  {
    if steps == [] then 0
    else (if steps[0].Do? && steps[0].k == k && steps[0].command.Cd? then |steps[0].command.arg| + 1 else 0) + Growth(steps[1..], k)
  }

  /** What the commands say of who is logged in. */
  function LoggedIn(inside: set<nat>, step: Step): set<nat> {
    match step
    case Connect => inside
    case Do(k, Login(result, _)) => if result > 0 then inside + {k} else inside
    case Do(k, Register(result, _, _)) => if result > 0 then inside + {k} else inside
    case Do(k, Logout) => inside - {k}
    case Do(_, _) => inside
  }

  /** mkdir and puts use names without a slash, and register comes from a client that is logged out. */
  predicate Tame(inside: set<nat>, steps: seq<Step>)
    decreases |steps|
  {
    steps == [] || (
      && (steps[0].Do? ==>
            match steps[0].command
            case Mkdir(arg, _, _) => SLASH !in arg
            case Puts(arg, _, _) => SLASH !in arg
            case Register(_, _, _) => steps[0].k !in inside
            case _ => true)
      && Tame(LoggedIn(inside, steps[0]), steps[1..]))
  }

  ghost predicate InsideOk(w: World, inside: set<nat>) {
    forall k: nat :: k in inside <==> k < |w.sessions| && w.sessions[k].user != -1
  }

  /** The path of every session, and of every one still to connect, has room for the rest of the run. */
  ghost predicate Roomy(w: World, steps: seq<Step>) {
    && (forall k: nat :: k < |w.sessions| ==> 0 < |w.sessions[k].path| && |w.sessions[k].path| + Growth(steps, k) < PATH_SIZE)
    && (forall k: nat :: k >= |w.sessions| ==> 1 + Growth(steps, k) < PATH_SIZE)
  }

  lemma InsertSlashFree(t: Table, row: Row, up: bool)
    requires SlashFree(t) && (row.parent != 0 ==> SLASH !in row.name)
    ensures SlashFree(Insert(t, row, up).0)
  {
  }

  lemma ServeSlashFree(t: Table, s: Session, c: Command)
    requires SlashFree(t) && ((c.Mkdir? || c.Puts?) ==> SLASH !in c.arg)
    ensures SlashFree(Serve(t, s, c).0)
  {
    hide SlashFree, Insert;
    match c {
      case Login(result, root) =>
        InsertSlashFree(t, Row(if result > 0 then result else s.user, 0, ROOT_NAME, Dir, false), root.inserted);
      case Register(result, made, root) =>
        var user := if result > 0 then result else s.user;
        InsertSlashFree(t, Row(user, 0, ROOT_NAME, Dir, false), made.inserted);
        var t1 := if result > 0 then InitRoot(t, result, made.second, made.inserted).0 else t;
        InsertSlashFree(t1, Row(user, 0, ROOT_NAME, Dir, false), root.inserted);
      case Mkdir(arg, _, up) =>
        if s.dir > 0 { InsertSlashFree(t, Row(s.user, s.dir, arg, Dir, false), up); }
      case Puts(arg, fileId, up) =>
        if s.dir > 0 { InsertSlashFree(t, Row(s.user, s.dir, arg, File(fileId), false), up); }
      case Rm(_, answer, up) => DeleteSlashFree(t, s.user, answer, up);
      case _ =>
    }
  }

  lemma DeleteSlashFree(t: Table, user: int, id: int, up: bool)
    requires SlashFree(t)
    ensures SlashFree(Delete(t, user, id, up).0)
  {
  }

  lemma TameKeepsPath(t: Table, s: Session, c: Command)
    requires Shape(t) && SessionOk(t, s) && SlashFree(t)
    requires c.Register? ==> s.user == -1
    requires c.Cd? ==> |s.path| + |c.arg| + 1 < PATH_SIZE
    ensures KeepsPath(t, s, c)
  {
  }

  lemma InsideStep(w: World, inside: set<nat>, step: Step)
    requires Enabled(w, step) && InsideOk(w, inside) && WorldOk(w)
    ensures InsideOk(Next(w, step), LoggedIn(inside, step))
  {
    hide Shape;
    var n := Next(w, step);
    if step.Do? {
      assert forall k :: 0 <= k < |w.sessions| && k != step.k ==> n.sessions[k] == w.sessions[k];
      UserAfter(w.table, w.sessions[step.k], step.command);
    }
  }

  lemma UserAfter(t: Table, s: Session, c: Command)
    ensures Serve(t, s, c).1.user ==
      if (c.Login? || c.Register?) && c.result > 0 then c.result else if c.Logout? then -1 else s.user
  {
  }

  lemma PathGrowth(t: Table, s: Session, c: Command)
    requires s.path != []
    ensures 0 < |Serve(t, s, c).1.path| <= |s.path| + if c.Cd? then |c.arg| + 1 else 0
  {
  }

  lemma RoomLeft(w: World, steps: seq<Step>)
    requires steps != [] && Feasible(w, steps) && Roomy(w, steps)
    ensures Roomy(Next(w, steps[0]), steps[1..])
  {
    var n := Next(w, steps[0]);
    if steps[0].Do? { PathGrowth(w.table, w.sessions[steps[0].k], steps[0].command); }
    forall k: nat | k < |n.sessions|
      ensures 0 < |n.sessions[k].path| && |n.sessions[k].path| + Growth(steps[1..], k) < PATH_SIZE
    {
      if k < |w.sessions| {
        assert |w.sessions[k].path| + Growth(steps, k) < PATH_SIZE;
      } else {
        assert 1 + Growth(steps, k) < PATH_SIZE;
      }
    }
    forall k: nat | k >= |n.sessions| ensures 1 + Growth(steps[1..], k) < PATH_SIZE {
      assert 1 + Growth(steps, k) < PATH_SIZE;
    }
  }

  lemma TameStep(w: World, inside: set<nat>, steps: seq<Step>)
    requires WorldOk(w) && SlashFree(w.table) && Feasible(w, steps) && steps != []
    requires Tame(inside, steps) && InsideOk(w, inside) && Roomy(w, steps)
    ensures steps[0].Do? ==> KeepsPath(w.table, w.sessions[steps[0].k], steps[0].command)
    ensures SlashFree(Next(w, steps[0]).table)
    ensures InsideOk(Next(w, steps[0]), LoggedIn(inside, steps[0])) && Roomy(Next(w, steps[0]), steps[1..])
  {
    RoomLeft(w, steps);
    InsideStep(w, inside, steps[0]);
    if steps[0].Do? {
      var s, c := w.sessions[steps[0].k], steps[0].command;
      assert |s.path| + Growth(steps, steps[0].k) < PATH_SIZE;
      TameKeepsPath(w.table, s, c);
      ServeSlashFree(w.table, s, c);
    }
  }

  /** After a run of such commands every session's path is the walk from the root to its directory. */
  lemma {:induction false} TameRunsAgree(w: World, inside: set<nat>, steps: seq<Step>)
    requires WorldOk(w) && Agrees(w) && SlashFree(w.table) && Feasible(w, steps)
    requires Tame(inside, steps) && InsideOk(w, inside) && Roomy(w, steps)
    ensures Agrees(After(w, steps)) && SlashFree(After(w, steps).table)
    decreases |steps|
  {
    if steps != [] {
      StepKeepsWorld(w, steps[0]);
      TameStep(w, inside, steps);
      AgreementIff(w, steps[0]);
      TameRunsAgree(Next(w, steps[0]), LoggedIn(inside, steps[0]), steps[1..]);
    }
  }

  /* ---------- runs of an empty server ---------- */

  ghost predicate Reached(w: World) {
    exists steps :: Feasible(NEW_WORLD, steps) && w == After(NEW_WORLD, steps)
  }

  lemma {:induction false} OneMore(w: World, steps: seq<Step>, step: Step)
    requires Feasible(w, steps) && Enabled(After(w, steps), step)
    ensures Feasible(w, steps + [step]) && After(w, steps + [step]) == Next(After(w, steps), step)
    decreases |steps|
  {
    if steps == [] {
      assert Feasible(Next(w, step), []);
      assert (steps + [step])[1..] == [];
    } else {
      OneMore(Next(w, steps[0]), steps[1..], step);
      assert (steps + [step])[1..] == steps[1..] + [step];
    }
  }

  lemma ReachedNext(w: World, step: Step)
    requires Reached(w) && Enabled(w, step)
    ensures Reached(Next(w, step))
  {
    var steps :| Feasible(NEW_WORLD, steps) && w == After(NEW_WORLD, steps);
    OneMore(NEW_WORLD, steps, step);
  }

  lemma ReachedOk(w: World)
    requires Reached(w)
    ensures WorldOk(w)
  {
    var steps :| Feasible(NEW_WORLD, steps) && w == After(NEW_WORLD, steps);
    NewWorldOk();
    ForestOverRuns(NEW_WORLD, steps);
  }

  /** A name that fits twice into the 512-byte query of mkdir. */
  const SHORT := 150

  /** Both lookups of a root miss and the insert succeeds. */
  const MISSED := RootTrace(-1, -1, true)

  const ROOTS: map<nat, Row> := map[1 := Row(1, 0, ROOT_NAME, Dir, false)]

  /** User 1 has logged in, and the server has made the root. */
  ghost function FirstLogin(): World {
    World(Table(ROOTS, 2), [Session(1, 1, ROOT_PATH)])
  }

  lemma FirstLoginReached()
    ensures Reached(FirstLogin()) && Agrees(FirstLogin()) && Owned(FirstLogin()) && OneRoot(FirstLogin().table)
  {
    assert Feasible(NEW_WORLD, []) && After(NEW_WORLD, []) == NEW_WORLD;
    ReachedNext(NEW_WORLD, Connect);
    var w := Next(NEW_WORLD, Connect);
    ReachedNext(w, Do(0, Login(1, MISSED)));
    assert Next(w, Do(0, Login(1, MISSED))) == FirstLogin();
  }

  /** Ownership: user 2 logs in on top of user 1's session, and stands in user 1's root. */
  lemma LoginOnTopBreaksOwnership()
    ensures var w, step := FirstLogin(), Do(0, Login(2, MISSED));
      && Reached(w) && Owned(w) && Enabled(w, step) && !StaysOneUser(w, step) && !Owned(Next(w, step))
      && Next(w, step) == World(w.table, [Session(2, 1, ROOT_PATH)])
  {
    FirstLoginReached();
    assert WorldOk(FirstLogin()) by { ReachedOk(FirstLogin()); }
    OwnershipIff(FirstLogin(), Do(0, Login(2, MISSED)));
  }

  /** Lookup: the two users then upload one name each into that directory, and `gets` can find either. */
  lemma LookupCanBeAmbiguous(name: Text) returns (w: World)
    requires 0 < |name| <= SHORT
    ensures Reached(w) && w.sessions == [Session(2, 1, ROOT_PATH)]
    ensures LiveEntry(w.table, 1, name, false, true, 2) && LiveEntry(w.table, 1, name, false, true, 3)
    ensures w.table.rows[2].kind == File(7) && w.table.rows[3].kind == File(8)
  {
    FirstLoginReached();
    var first := Do(0, Puts(name, 7, true));
    ReachedNext(FirstLogin(), first);
    var w1 := Next(FirstLogin(), first);
    var rows := ROOTS[2 := Row(1, 1, name, File(7), false)];
    assert w1 == World(Table(rows, 3), [Session(1, 1, ROOT_PATH)]);
    ReachedNext(w1, Do(0, Login(2, MISSED)));
    var w2 := Next(w1, Do(0, Login(2, MISSED)));
    assert w2 == World(w1.table, [Session(2, 1, ROOT_PATH)]);
    var second := Do(0, Puts(name, 8, true));
    ReachedNext(w2, second);
    w := Next(w2, second);
    assert w == World(Table(rows[3 := Row(2, 1, name, File(8), false)], 4), [Session(2, 1, ROOT_PATH)]);
  }

  /** One root: a second session of user 1 whose lookups ran before the first one's insert. */
  lemma TwoRoots()
    ensures var w, step := World(FirstLogin().table, FirstLogin().sessions + [LOGGED_OUT]), Do(1, Login(1, MISSED));
      && Reached(w) && OneRoot(w.table) && Enabled(w, step) && InsertsSecondRoot(w.table, w.sessions[1], step.command)
      && !OneRoot(Next(w, step).table)
  {
    FirstLoginReached();
    ReachedNext(FirstLogin(), Connect);
    var w, step := Next(FirstLogin(), Connect), Do(1, Login(1, MISSED));
    ReachedOk(w);
    assert 1 in w.table.rows && w.table.rows[1].parent == 0 && w.table.rows[1].user == 1;
    OneRootIff(w, step);
  }

  /** A session alone, in a directory that nothing is in yet. */
  ghost predicate Alone(w: World) {
    && |w.sessions| == 1 && w.sessions[0].user > 0 && w.sessions[0].dir > 0 && w.sessions[0].dir in w.table.rows
    && forall id :: id in w.table.rows ==> w.table.rows[id].parent != w.sessions[0].dir
  }

  lemma Makes(w: World, name: Text) returns (n: World)
    requires Reached(w) && Agrees(w) && Alone(w) && PlainName(name)
    ensures Reached(n) && Agrees(n) && n.sessions == w.sessions
    ensures n.table.next == w.table.next + 1 && w.table.next !in w.table.rows
    ensures n.table.rows == w.table.rows[w.table.next := Row(w.sessions[0].user, w.sessions[0].dir, name, Dir, false)]
    ensures Enabled(n, Do(0, Cd(name, w.table.next, true)))
  {
    ReachedOk(w);
    var step := Do(0, Mkdir(name, -1, true));
    ReachedNext(w, step);
    AgreementIff(w, step);
    n := Next(w, step);
    ReachedOk(n);
    assert LiveEntry(n.table, w.sessions[0].dir, name, true, false, w.table.next);
  }

  /** mkdir of a name and cd into it. */
  lemma MakesAndEnters(w: World, name: Text) returns (n: World)
    requires Reached(w) && Agrees(w) && Alone(w) && PlainName(name) && Fits(w.sessions[0].path, name)
    ensures Reached(n) && Agrees(n) && Alone(n)
    ensures n.sessions[0] == Session(w.sessions[0].user, w.table.next, Appended(w.sessions[0].path, name))
    ensures n.table.next == w.table.next + 1
    ensures n.table.rows == w.table.rows[w.table.next := Row(w.sessions[0].user, w.sessions[0].dir, name, Dir, false)]
  {
    ReachedOk(w);
    var made := Makes(w, name);
    var step := Do(0, Cd(name, w.table.next, true));
    ReachedOk(made);
    ReachedNext(made, step);
    AgreementIff(made, step);
    n := Next(made, step);
    forall id | id in n.table.rows ensures n.table.rows[id].parent != n.sessions[0].dir {
      if id in w.table.rows { assert RowOk(w.table.rows, id); }
    }
  }

  /** Path, first failure: below three directories with names of 150 bytes, `cd` moves and the path does
      not. */
  lemma LongPathFallsBehind(long: Text, name: Text) returns (w: World, id: nat)
    requires |long| == SHORT && PlainName(name) && 57 < |name| <= SHORT
    ensures var step := Do(0, Cd(name, id, true));
      && Reached(w) && Agrees(w) && Enabled(w, step) && !Agrees(Next(w, step))
      && Next(w, step).sessions[0] == w.sessions[0].(dir := id)
  {
    FirstLoginReached();
    w := MakesAndEnters(FirstLogin(), long);
    w := MakesAndEnters(w, long);
    w := MakesAndEnters(w, long);
    assert |w.sessions[0].path| == 453;
    id := w.table.next;
    w := Makes(w, name);
    ReachedOk(w);
    AgreementIff(w, Do(0, Cd(name, id, true)));
  }

  /** Second failure: a register on a live session, even one that is refused, moves it to the root and
      leaves the path below it. */
  lemma RegisterLeavesPath(name: Text) returns (w: World)
    requires PlainName(name) && |name| <= SHORT
    ensures var step := Do(0, Register(-1, MISSED, RootTrace(1, -1, false)));
      && Reached(w) && Agrees(w) && Enabled(w, step) && !Agrees(Next(w, step))
      && Next(w, step).sessions[0] == Session(1, 1, [SLASH] + name)
  {
    FirstLoginReached();
    w := MakesAndEnters(FirstLogin(), name);
    ReachedOk(w);
    AgreementIff(w, Do(0, Register(-1, MISSED, RootTrace(1, -1, false))));
  }

  /** Third failure: mkdir accepts "a/b", and after `cd a/b` and `cd ..` the path reads "/a" at the root. */
  lemma SlashNameMisleads() returns (w: World)
    ensures var step := Do(0, Cd(DOTDOT_ARG, -1, true));
      && Reached(w) && Agrees(w) && Enabled(w, step) && !Agrees(Next(w, step))
      && Next(w, step).sessions[0] == Session(1, 1, [SLASH, 97])
  {
    FirstLoginReached();
    var name: Text := [97, SLASH, 98];
    w := MakesAndEnters(FirstLogin(), name);
    ReachedOk(w);
    assert SLASH in name[1..] by { assert name[1..][0] == SLASH; }
    AgreementIff(w, Do(0, Cd(DOTDOT_ARG, -1, true)));
    SlashNameStripsWrong();
    assert w.sessions[0].path == [SLASH] + name == Render([name]) by { AppendAgrees([], name); }
  }
}
