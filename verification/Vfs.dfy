/** The `paths` table and the queries the server runs on it (src/server/dao_vfs.c,
    docs/database_init.sql). A query is one atomic operation; it may fail and then changes nothing. */
module Vfs {
  import opened Bytes

  datatype Kind = Dir | File(fileId: int)

  /** One row; `parent` 0 stands for SQL's NULL. */
  datatype Row = Row(user: int, parent: nat, name: Text, kind: Kind, tomb: bool)

  /** Rows by id, and the next auto-increment id. */
  datatype Table = Table(rows: map<nat, Row>, next: nat)

  const EMPTY := Table(map[], 1)
  const ROOT_NAME: Text := [SLASH]

  /* ---------- answers to the lookups ---------- */

  /** `SELECT parent_id .. WHERE id=dir AND tomb=0`: -1 for no row, a NULL parent, or a failed query. */
  function ParentAnswer(t: Table, dir: int, up: bool): int {
    if up && dir > 0 && dir in t.rows && !t.rows[dir].tomb && t.rows[dir].parent != 0 then t.rows[dir].parent else -1
  }

  /** The row at (parent, name); `dirsOnly` and `filesOnly` are the type filters. */
  predicate Entry(t: Table, parent: int, name: Text, dirsOnly: bool, filesOnly: bool, id: int) {
    && id > 0 && id in t.rows && parent > 0
    && t.rows[id].parent == parent && t.rows[id].name == name
    && (dirsOnly ==> t.rows[id].kind.Dir?) && (filesOnly ==> t.rows[id].kind.File?)
  }

  predicate LiveEntry(t: Table, parent: int, name: Text, dirsOnly: bool, filesOnly: bool, id: int) {
    Entry(t, parent, name, dirsOnly, filesOnly, id) && !t.rows[id].tomb
  }

  /** dao_find_child_id: some live matching row, or -1 when there is none or the query fails. */
  ghost predicate ChildAnswer(t: Table, parent: int, name: Text, dirsOnly: bool, filesOnly: bool, up: bool, r: int) {
    if r > 0 then up && LiveEntry(t, parent, name, dirsOnly, filesOnly, r)
    else r == -1 && (up ==> forall id :: id in t.rows ==> !LiveEntry(t, parent, name, dirsOnly, filesOnly, id))
  }

  predicate IsRoot(t: Table, user: int, id: int) {
    id > 0 && id in t.rows && t.rows[id].user == user && t.rows[id].parent == 0 && t.rows[id].kind.Dir?
  }

  /** dao_get_root_dir_id; -1 also when the query fails or ran before another session's insert. */
  predicate RootAnswer(t: Table, user: int, r: int) {
    r == -1 || IsRoot(t, user, r)
  }

  /* ---------- inserts and updates ---------- */

  /** UNIQUE (user_id, parent_id, name). A NULL parent never collides; a removed row still does. */
  predicate KeyTaken(t: Table, user: int, parent: nat, name: Text) {
    parent != 0 && exists id :: id in t.rows && t.rows[id].user == user && t.rows[id].parent == parent && t.rows[id].name == name
  }

  /** INSERT: -1 when the query fails, the key is taken or the parent row does not exist. */
  function Insert(t: Table, row: Row, up: bool): (Table, int) {
    if up && !KeyTaken(t, row.user, row.parent, row.name) && (row.parent == 0 || row.parent in t.rows)
    then (Table(t.rows[t.next := row], t.next + 1), t.next as int)
    else (t, -1)
  }

  function CreateDir(t: Table, user: int, parent: int, name: Text, seen: int, up: bool): (Table, int) {
    if user <= 0 || parent <= 0 then (t, -1)
    else if seen > 0 then (t, 0)
    else Insert(t, Row(user, parent, name, Dir, false), up)
  }

  function InsertPath(t: Table, user: int, parent: int, name: Text, fileId: int, up: bool): (Table, int) {
    if user <= 0 || parent <= 0 || fileId <= 0 then (t, -1)
    else Insert(t, Row(user, parent, name, File(fileId), false), up)
  }

  /** dao_init_root_dir after a lookup answered `seen`. */
  function InitRoot(t: Table, user: int, seen: int, up: bool): (Table, int) {
    if user <= 0 then (t, -1)
    else if seen > 0 then (t, seen)
    else Insert(t, Row(user, 0, ROOT_NAME, Dir, false), up)
  }

  /** dao_delete_entry: a soft delete of the row, if it belongs to `user`. */
  function Delete(t: Table, user: int, id: int, up: bool): (Table, int) {
    if user <= 0 || id <= 0 || !up then (t, -1)
    else if id in t.rows && t.rows[id].user == user then (t.(rows := t.rows[id := t.rows[id].(tomb := true)]), 0)
    else (t, 0)
  }

  /* ---------- shape of the table ---------- */

  /** A forest with tombstones: ids come from the counter, a parent is an earlier directory row, roots
      are directories, entry names are non-empty, and the unique key holds. */
  ghost predicate Shape(t: Table) {
    && t.next > 0
    && (forall id :: id in t.rows ==> 0 < id < t.next && RowOk(t.rows, id))
    && UniqueKeys(t.rows)
  }

  ghost predicate RowOk(rows: map<nat, Row>, id: nat)
    requires id in rows
  {
    var row := rows[id];
    if row.parent == 0 then row.kind.Dir?
    else row.parent < id && row.parent in rows && rows[row.parent].kind.Dir? && row.name != []
  }

  ghost predicate UniqueKeys(rows: map<nat, Row>) {
    forall a, b :: a in rows && b in rows && a != b && rows[a].parent != 0 ==> !SameKey(rows[a], rows[b])
  }

  predicate SameKey(a: Row, b: Row) {
    a.user == b.user && a.parent == b.parent && a.name == b.name
  }

  /** Every entry belongs to the user that owns its directory. */
  ghost predicate OwnedByParent(t: Table) {
    forall id :: id in t.rows && t.rows[id].parent != 0 ==>
      t.rows[id].parent in t.rows && t.rows[t.rows[id].parent].user == t.rows[id].user
  }

  ghost predicate OneRoot(t: Table) {
    forall a, b ::
      a in t.rows && b in t.rows && t.rows[a].parent == 0 && t.rows[b].parent == 0 && t.rows[a].user == t.rows[b].user ==> a == b
  }

  predicate Kept(a: Row, b: Row) {
    SameKey(a, b) && a.kind == b.kind && (a.tomb ==> b.tomb)
  }

  /** `t` became `n`: no row is lost or changed, except that tombstones may be set. */
  ghost predicate Grows(t: Table, n: Table) {
    && t.next <= n.next
    && (forall id :: id in t.rows ==> id in n.rows && Kept(t.rows[id], n.rows[id]))
    && (forall id :: id in n.rows && id !in t.rows ==> t.next <= id)
  }

  lemma InsertUnique(t: Table, row: Row)
    requires UniqueKeys(t.rows) && t.next !in t.rows && !KeyTaken(t, row.user, row.parent, row.name)
    ensures UniqueKeys(t.rows[t.next := row])
  {
    var rows := t.rows[t.next := row];
    forall a, b | a in rows && b in rows && a != b && rows[a].parent != 0
      ensures !SameKey(rows[a], rows[b])
    {
      if a != t.next && b != t.next { assert !SameKey(t.rows[a], t.rows[b]); }
    }
  }

  lemma InsertShape(t: Table, row: Row, up: bool)
    requires Shape(t)
    requires row.parent != 0 ==> row.name != [] && (row.parent in t.rows ==> t.rows[row.parent].kind.Dir?)
    requires row.parent == 0 ==> row.kind.Dir?
    ensures var (n, id) := Insert(t, row, up);
      && Shape(n) && Grows(t, n)
      && (id > 0 <==> n != t)
      && (id > 0 ==> id !in t.rows && n.rows == t.rows[id := row])
  {
    var (n, id) := Insert(t, row, up);
    if id > 0 {
      assert id in n.rows && id !in t.rows;
      InsertUnique(t, row);
      forall k | k in t.rows ensures RowOk(n.rows, k) {
        assert RowOk(t.rows, k);
      }
    }
  }

  lemma DeleteShape(t: Table, user: int, id: int, up: bool)
    requires Shape(t)
    ensures var n := Delete(t, user, id, up).0; Shape(n) && Grows(t, n) && n.rows.Keys == t.rows.Keys
  {
    var n := Delete(t, user, id, up).0;
    forall k | k in t.rows
      ensures Kept(t.rows[k], n.rows[k]) && RowOk(n.rows, k)
    {
      assert RowOk(t.rows, k);
    }
    UniqueKept(t.rows, n.rows);
  }

  lemma UniqueKept(rows: map<nat, Row>, kept: map<nat, Row>)
    requires UniqueKeys(rows) && kept.Keys == rows.Keys
    requires forall k :: k in rows ==> SameKey(rows[k], kept[k])
    ensures UniqueKeys(kept)
  {
    forall a, b | a in kept && b in kept && a != b && kept[a].parent != 0
      ensures !SameKey(kept[a], kept[b])
    {
      assert SameKey(rows[a], kept[a]) && SameKey(rows[b], kept[b]) && !SameKey(rows[a], rows[b]);
    }
  }

  lemma GrowsItself(t: Table)
    requires Shape(t)
    ensures Grows(t, t)
  {
  }

  lemma GrowsTransitive(a: Table, b: Table, c: Table)
    requires Grows(a, b) && Grows(b, c)
    ensures Grows(a, c)
  {
    forall id | id in a.rows
      ensures Kept(a.rows[id], c.rows[id])
    {
      assert Kept(a.rows[id], b.rows[id]) && Kept(b.rows[id], c.rows[id]);
    }
  }

  /* ---------- walking to the root ---------- */

  /** The names on the way from the root down to `id`. */
  ghost function Names(t: Table, id: nat): seq<Text>
    requires Shape(t) && id in t.rows
    decreases id
  {
    if t.rows[id].parent == 0 then [] else Names(t, t.rows[id].parent) + [t.rows[id].name]
  }

  /** `id` lies in the subtree of `d`. */
  ghost predicate Under(t: Table, d: nat, id: nat)
    requires Shape(t) && id in t.rows
    decreases id
  {
    id == d || (t.rows[id].parent != 0 && Under(t, d, t.rows[id].parent))
  }

  /** The root a parent walk from `id` ends at. */
  ghost function RootOf(t: Table, id: nat): (r: nat)
    requires Shape(t) && id in t.rows
    ensures r in t.rows && t.rows[r].parent == 0 && t.rows[r].kind.Dir?
    decreases id
  {
    if t.rows[id].parent == 0 then id else RootOf(t, t.rows[id].parent)
  }

  lemma {:induction false} GrowsKeepsWalk(t: Table, n: Table, d: nat, id: nat)
    requires Shape(t) && Shape(n) && Grows(t, n) && id in t.rows
    ensures Names(n, id) == Names(t, id) && (Under(n, d, id) <==> Under(t, d, id))
    decreases id
  {
    assert Kept(t.rows[id], n.rows[id]);
    if t.rows[id].parent != 0 {
      GrowsKeepsWalk(t, n, d, t.rows[id].parent);
    }
  }

  /** Parent walks end at the owner's root, and there is only one. */
  lemma {:induction false} WalkEndsAtOwnRoot(t: Table, id: nat)
    requires Shape(t) && OwnedByParent(t) && OneRoot(t) && id in t.rows
    ensures t.rows[RootOf(t, id)].user == t.rows[id].user
    ensures forall r :: IsRoot(t, t.rows[id].user, r) ==> r == RootOf(t, id)
    decreases id
  {
    if t.rows[id].parent != 0 {
      WalkEndsAtOwnRoot(t, t.rows[id].parent);
    }
  }

  /** Where entries belong to their directory's owner, (parent, name) names at most one row, removed rows
      included, so the child lookup has one possible answer. */
  lemma LookupIsFunction(t: Table, parent: int, name: Text, a: int, b: int)
    requires Shape(t) && OwnedByParent(t)
    requires Entry(t, parent, name, false, false, a) && Entry(t, parent, name, false, false, b)
    ensures a == b
  {
    assert t.rows[a].user == t.rows[parent].user == t.rows[b].user;
    assert SameKey(t.rows[a], t.rows[b]);
  }

  /** mkdir and lookup: it succeeds exactly when the queries work, the lookup saw no such directory and the
      key was never used there; and then the new directory is what every later lookup of the name finds. */
  lemma CreatedDirIsFound(t: Table, user: int, parent: int, name: Text, seen: int, up: bool)
    requires Shape(t) && OwnedByParent(t) && name != []
    requires user > 0 && parent > 0 && parent in t.rows && t.rows[parent].kind.Dir? && t.rows[parent].user == user
    ensures var (n, id) := CreateDir(t, user, parent, name, seen, up);
      && (id > 0 <==> up && seen <= 0 && !KeyTaken(t, user, parent, name))
      && (id > 0 ==> id !in t.rows && forall r :: ChildAnswer(n, parent, name, true, false, true, r) <==> r == id)
  {
    InsertShape(t, Row(user, parent, name, Dir, false), up);
    var (n, id) := CreateDir(t, user, parent, name, seen, up);
    if id > 0 {
      NewEntryIsFound(t, n, Row(user, parent, name, Dir, false), id);
      forall r ensures ChildAnswer(n, parent, name, true, false, true, r) <==> r == id {
        assert LiveEntry(n, parent, name, true, false, id);
      }
    }
  }

  lemma NewEntryIsFound(t: Table, n: Table, row: Row, id: int)
    requires Shape(t) && OwnedByParent(t) && id > 0 && id !in t.rows && n.rows == t.rows[id as nat := row]
    requires row.parent != 0 && row.parent in t.rows && t.rows[row.parent].user == row.user && !row.tomb
    requires !KeyTaken(t, row.user, row.parent, row.name)
    ensures forall k :: Entry(n, row.parent, row.name, false, false, k) ==> k == id
  {
    assert forall k :: k in t.rows && t.rows[k].parent == row.parent ==> t.rows[k].user == row.user;
    assert forall k :: k in n.rows && k != id ==> k in t.rows && n.rows[k] == t.rows[k];
  }

  /** The same for the entry of an uploaded file. */
  lemma InsertedPathIsFound(t: Table, user: int, parent: int, name: Text, fileId: int, up: bool)
    requires Shape(t) && OwnedByParent(t) && name != []
    requires user > 0 && parent > 0 && parent in t.rows && t.rows[parent].kind.Dir? && t.rows[parent].user == user
    ensures var (n, id) := InsertPath(t, user, parent, name, fileId, up);
      && (id > 0 <==> up && fileId > 0 && !KeyTaken(t, user, parent, name))
      && (id > 0 ==> n.rows[id].kind == File(fileId) && forall r :: ChildAnswer(n, parent, name, false, true, true, r) <==> r == id)
  {
    InsertShape(t, Row(user, parent, name, File(fileId), false), up);
    var (n, id) := InsertPath(t, user, parent, name, fileId, up);
    if id > 0 {
      NewEntryIsFound(t, n, Row(user, parent, name, File(fileId), false), id);
      forall r ensures ChildAnswer(n, parent, name, false, true, true, r) <==> r == id {
        assert LiveEntry(n, parent, name, false, true, id);
      }
    }
  }

  /** After rm of what a lookup found, the lookup finds nothing, and every other row is as it was. */
  lemma DeletedIsNotFound(t: Table, user: int, parent: int, name: Text, id: int)
    requires Shape(t) && OwnedByParent(t) && user > 0
    requires ChildAnswer(t, parent, name, false, false, true, id) && id > 0 && t.rows[id].user == user
    ensures var n := Delete(t, user, id, true).0;
      && (forall r :: ChildAnswer(n, parent, name, false, false, true, r) <==> r == -1)
      && (forall k :: k in t.rows && k != id ==> k in n.rows && n.rows[k] == t.rows[k])
  {
    var n := Delete(t, user, id, true).0;
    forall k | k in n.rows ensures !LiveEntry(n, parent, name, false, false, k) {
      if LiveEntry(n, parent, name, false, false, k) { LookupIsFunction(t, parent, name, k, id); }
    }
  }

  /** Inserting a root keeps one root a user exactly when the user had none. */
  lemma RootInsertIff(t: Table, user: int)
    requires Shape(t) && OneRoot(t)
    ensures OneRoot(Insert(t, Row(user, 0, ROOT_NAME, Dir, false), true).0) <==>
      forall id :: id in t.rows ==> !(t.rows[id].parent == 0 && t.rows[id].user == user)
  {
    var (n, id) := Insert(t, Row(user, 0, ROOT_NAME, Dir, false), true);
    assert id in n.rows && n.rows[id].parent == 0 && n.rows[id].user == user;
    if k :| k in t.rows && t.rows[k].parent == 0 && t.rows[k].user == user {
      assert k in n.rows && n.rows[k] == t.rows[k] && k != id;
    }
  }

  /** A name once used in a directory is used up: removing the entry does not free the key, so no later
      table lets that user insert it there again. */
  lemma UsedNameStaysTaken(t: Table, n: Table, user: int, parent: nat, name: Text, kind: Kind, up: bool)
    requires Grows(t, n) && KeyTaken(t, user, parent, name)
    ensures KeyTaken(n, user, parent, name)
    ensures Insert(n, Row(user, parent, name, kind, false), up) == (n, -1)
  {
    var id :| id in t.rows && t.rows[id].user == user && t.rows[id].parent == parent && t.rows[id].name == name;
    assert Kept(t.rows[id], n.rows[id]);
  }
}
