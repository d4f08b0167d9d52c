/** The text of a session's current path: how the handlers edit it, and when that agrees with the list of
    names it is meant to show (src/server/file_cmds.c lines 33-86). */
module PathText {
  import opened Bytes

  const PATH_SIZE := 512
  const ROOT_PATH: Text := [SLASH]

  /** strrchr(path, '/') as an index; -1 when there is none. */
  function LastSlash(p: Text): (k: int)
    ensures -1 <= k < |p|
    ensures k >= 0 ==> p[k] == SLASH
    ensures forall j :: k < j < |p| ==> p[j] != SLASH
  {
    if p == [] then -1
    else if p[|p| - 1] == SLASH then |p| - 1
    else LastSlash(p[..|p| - 1])
  }

  /** The edit made by `cd ..`. */
  function StripLast(p: Text): Text {
    if LastSlash(p) > 0 then p[..LastSlash(p)] else ROOT_PATH
  }

  /** The edit made by `cd name`, and the length test in front of it. */
  function Appended(p: Text, name: Text): Text {
    (if p != ROOT_PATH then p + [SLASH] else p) + name
  }

  predicate Fits(p: Text, name: Text) {
    |p| + |name| + 2 <= PATH_SIZE
  }

  /** What the path should read for a list of names below the root. */
  function Joined(names: seq<Text>): Text {
    if names == [] then [] else Joined(names[..|names| - 1]) + [SLASH] + names[|names| - 1]
  }

  function Render(names: seq<Text>): Text {
    if names == [] then ROOT_PATH else Joined(names)
  }

  ghost predicate NonEmptyNames(names: seq<Text>) {
    forall i :: 0 <= i < |names| ==> names[i] != []
  }

  lemma JoinedAppend(names: seq<Text>, name: Text)
    ensures Joined(names + [name]) == Joined(names) + [SLASH] + name
  {
    assert (names + [name])[..|names|] == names;
  }

  lemma AppendAgrees(names: seq<Text>, name: Text)
    requires NonEmptyNames(names)
    ensures Appended(Render(names), name) == Render(names + [name])
  {
    JoinedAppend(names, name);
    if names == [] {
      assert Joined([]) + [SLASH] + name == [SLASH] + name;
    } else {
      assert |Joined(names)| >= 2;
    }
  }

  lemma RootOnlyIfEmpty(names: seq<Text>)
    requires NonEmptyNames(names)
    ensures Render(names) == ROOT_PATH <==> names == []
  {
    if names != [] { assert |Joined(names)| >= 2; }
  }

  /** Skipping the edit never agrees: the path of a child is longer. */
  lemma SkippingDisagrees(names: seq<Text>, name: Text)
    requires NonEmptyNames(names) && name != []
    ensures Render(names) != Render(names + [name])
  {
    JoinedAppend(names, name);
    RootOnlyIfEmpty(names);
    assert |Render(names + [name])| == |Joined(names)| + 1 + |name|;
  }

  lemma LastSlashAfter(front: Text, name: Text)
    ensures LastSlash(front + [SLASH] + name) == |front| + 1 + LastSlash(name)
  {
    var p := front + [SLASH] + name;
    var k := LastSlash(p);
    assert p[|front|] == SLASH;
    assert forall j :: 0 <= j < |name| ==> p[|front| + 1 + j] == name[j];
    if LastSlash(name) >= 0 { assert p[|front| + 1 + LastSlash(name)] == SLASH; }
    if k > |front| { assert name[k - |front| - 1] == SLASH; }
  }

  /** When `cd ..` leaves the right text: the name has no slash, or it is directly below the root and
      its only slash is its first byte. */
  predicate StripsCleanly(below: seq<Text>, name: Text) {
    SLASH !in name || (below == [] && SLASH !in name[1..])
  }

  lemma StripAgreesIff(names: seq<Text>, name: Text)
    requires NonEmptyNames(names) && name != []
    ensures StripLast(Render(names + [name])) == Render(names) <==> StripsCleanly(names, name)
  {
    var front := Joined(names);
    var p := front + [SLASH] + name;
    var k := LastSlash(name);
    JoinedAppend(names, name);
    LastSlashAfter(front, name);
    assert k == -1 <==> SLASH !in name;
    if names == [] {
      assert p == [SLASH] + name;
      assert k <= 0 <==> SLASH !in name[1..] by {
        if k > 0 { assert name[1..][k - 1] == SLASH; }
        if SLASH in name[1..] { var j :| 0 <= j < |name[1..]| && name[1..][j] == SLASH; assert name[j + 1] == SLASH; }
      }
      if k == 0 { assert p[..1] == [SLASH]; }
    } else {
      if k == -1 {
        assert p[..|front|] == front;
      }
    }
  }

  /** A directory called "a/b": after `cd ..` the path still ends in "/a". */
  lemma SlashNameStripsWrong()
    ensures StripLast(Render([[97, SLASH, 98]])) == [SLASH, 97] != Render([])
  {
    var p: Text := [SLASH, 97, SLASH, 98];
    assert Render([[97, SLASH, 98]]) == p by { JoinedAppend([], [97, SLASH, 98]); assert [] + [[97, SLASH, 98]] == [[97 as byte, SLASH, 98]]; }
    assert p[2] == SLASH && p[3] != SLASH;
    assert LastSlash(p) == 2;
  }
}
