/** The text of `ls`, built in a fixed buffer (src/server/dao_vfs.c lines 441-494). */
module Listing {
  import opened Basics
  import opened Bytes
  import opened Vfs

  const DOTS: Text := [DOT, SPACE, DOT, DOT]

  /** ". .." and the given names, separated by single spaces. */
  function Shown(names: seq<Text>): (r: Text)
    ensures |r| >= 4
  {
    if names == [] then DOTS else Shown(names[..|names| - 1]) + [SPACE] + names[|names| - 1]
  }

  /** Splitting a text at its spaces. */
  function Words(text: Text): (r: seq<Text>)
    ensures r != []
  {
    if text == [] then [[]]
    else
      var rest := Words(text[1..]);
      if text[0] == SPACE then [[]] + rest else [[text[0]] + rest[0]] + rest[1..]
  }

  lemma {:induction false} WordsOf(word: Text, rest: Text)
    requires SPACE !in word
    ensures Words(word + [SPACE] + rest) == [word] + Words(rest)
    ensures Words(word) == [word]
  {
    if word == [] {
      assert ([] + [SPACE] + rest)[1..] == rest;
    } else {
      var text := word + [SPACE] + rest;
      WordsOf(word[1..], rest);
      assert text[0] == word[0] != SPACE && text[1..] == word[1..] + [SPACE] + rest;
      assert [word[0]] + word[1..] == word;
      assert ([word[1..]] + Words(rest))[1..] == Words(rest);
    }
  }

  lemma {:induction false} WordsAppend(text: Text, word: Text)
    requires SPACE !in word
    ensures Words(text + [SPACE] + word) == Words(text) + [word]
  {
    if text == [] {
      WordsOf([], word);
      WordsOf(word, []);
      assert [] + [SPACE] + word == [SPACE] + word;
    } else {
      assert (text + [SPACE] + word)[1..] == text[1..] + [SPACE] + word;
      WordsAppend(text[1..], word);
    }
  }

  /** Reading the text back: names without a space are its words, behind "." and "..". */
  lemma {:induction false} ShownReadsBack(names: seq<Text>)
    requires forall i :: 0 <= i < |names| ==> SPACE !in names[i]
    ensures Words(Shown(names)) == [[DOT], [DOT, DOT]] + names
  {
    if names == [] {
      WordsOf([DOT], [DOT, DOT]);
      WordsOf([DOT, DOT], []);
      assert DOTS == [DOT] + [SPACE] + [DOT, DOT];
    } else {
      var front := names[..|names| - 1];
      ShownReadsBack(front);
      WordsAppend(Shown(front), names[|names| - 1]);
      assert names == front + [names[|names| - 1]];
    }
  }

  /** And for any names: each stands in the text in full, in order, with a space in front of it. */
  lemma {:induction false} ShownAt(names: seq<Text>, k: nat)
    requires k < |names|
    ensures var at := |Shown(names[..k])|;
      && at + 1 + |names[k]| <= |Shown(names)|
      && Shown(names)[..4] == DOTS
      && Shown(names)[at] == SPACE && Shown(names)[at + 1..at + 1 + |names[k]|] == names[k]
      && (k == |names| - 1 ==> at + 1 + |names[k]| == |Shown(names)|)
    decreases |names|
  {
    var n := |names| - 1;
    if k < n {
      ShownAt(names[..n], k);
      assert names[..n][..k] == names[..k];
    } else {
      if n > 0 { ShownAt(names[..n], n - 1); }
    }
  }

  /** How far the names fit, from the i-th on, when `used` bytes of `size` are taken and each name needs
      a separator and must leave room for the final NUL; it stops at the first that does not. */
  function Fitting(names: seq<Text>, i: nat, used: nat, size: nat): (k: nat)
    requires i <= |names|
    ensures i <= k <= |names|
    decreases |names| - i
  {
    if i == |names| || used + |names[i]| + 1 >= size then i
    else Fitting(names, i + 1, used + |names[i]| + 1, size)
  }

  function Fits(names: seq<Text>, size: nat): (k: nat)
    ensures k <= |names|
  {
    Fitting(names, 0, |DOTS| + 1, size)
  }

  function Listed(names: seq<Text>, size: nat): Text {
    Shown(names[..Fits(names, size)])
  }

  lemma ShownAppend(names: seq<Text>, name: Text)
    ensures Shown(names + [name]) == Shown(names) + [SPACE] + name
  {
    assert (names + [name])[..|names|] == names;
  }

  lemma {:induction false} ShownGrows(names: seq<Text>, j: nat, k: nat)
    requires j <= k <= |names|
    ensures |Shown(names[..j])| <= |Shown(names[..k])|
    ensures j < k ==> |Shown(names[..j])| < |Shown(names[..k])|
    decreases k - j
  {
    if j < k {
      assert names[..k] == names[..k - 1] + [names[k - 1]];
      ShownAppend(names[..k - 1], names[k - 1]);
      ShownGrows(names, j, k - 1);
    }
  }

  lemma {:induction false} FittingFrom(names: seq<Text>, i: nat, used: nat, size: nat)
    requires i <= |names| && used == |Shown(names[..i])| + 1
    ensures var k := Fitting(names, i, used, size);
      && (k > i ==> |Shown(names[..k])| + 1 < size)
      && (k < |names| ==> |Shown(names[..k + 1])| + 1 >= size)
    decreases |names| - i
  {
    if i < |names| {
      assert names[..i + 1] == names[..i] + [names[i]];
      ShownAppend(names[..i], names[i]);
      if used + |names[i]| + 1 < size {
        FittingFrom(names, i + 1, used + |names[i]| + 1, size);
      }
    }
  }

  /** The listing is the longest prefix of the rows whose text leaves room for a separator and the NUL:
      the first k names are shown in full exactly when their text plus one byte is below the size. */
  lemma ListedIsGreedyPrefix(names: seq<Text>, size: nat, k: nat)
    requires 0 < k <= |names|
    ensures k <= Fits(names, size) <==> |Shown(names[..k])| + 1 < size
  {
    var g := Fits(names, size);
    assert names[..0] == [];
    FittingFrom(names, 0, |DOTS| + 1, size);
    if k <= g {
      ShownGrows(names, k, g);
    } else {
      ShownGrows(names, g + 1, k);
    }
  }

  /** The rows the query returns, each once. */
  ghost predicate RowsOf(t: Table, user: int, dir: int, ids: seq<nat>) {
    && NoDuplicates(ids)
    && forall id :: id in ids <==> id in t.rows && t.rows[id].user == user && t.rows[id].parent == dir && !t.rows[id].tomb
  }

  ghost function NamesOf(t: Table, ids: seq<nat>): (r: seq<Text>)
    requires forall id :: id in ids ==> id in t.rows
    ensures |r| == |ids| && forall i :: 0 <= i < |ids| ==> r[i] == t.rows[ids[i]].name
  {
    seq(|ids|, i requires 0 <= i < |ids| => t.rows[ids[i]].name)
  }

  /** With ownership, `ls` misses no live entry of the directory exactly when the whole text fits. */
  lemma EveryEntryShownIff(t: Table, user: int, dir: nat, ids: seq<nat>, size: nat)
    requires OwnedByParent(t) && dir != 0 && dir in t.rows && t.rows[dir].user == user && RowsOf(t, user, dir, ids)
    ensures forall id :: id in t.rows && t.rows[id].parent == dir && !t.rows[id].tomb ==> id in ids
    ensures ids != [] ==>
      (Listed(NamesOf(t, ids), size) == Shown(NamesOf(t, ids)) <==> |Shown(NamesOf(t, ids))| + 1 < size)
  {
    if ids != [] {
      var names := NamesOf(t, ids);
      assert names[..|names|] == names;
      ListedIsGreedyPrefix(names, size, |names|);
      var g := Fits(names, size);
      ShownGrows(names, g, |names|);
    }
  }

  /** snprintf(result + used, left, "%s", s): at most left - 1 bytes of `s`, then NUL. */
  method Print(result: array<byte>, used: nat, s: Text) returns (ret: nat)
    requires used < result.Length
    modifies result
    ensures ret == |s|
    ensures result[..used] == old(result[..used])
    ensures used + |s| < result.Length ==> result[used..used + |s|] == s && result[used + |s|] == NUL
    ensures used + |s| >= result.Length ==>
      result[used..result.Length - 1] == s[..result.Length - used - 1] && result[result.Length - 1] == NUL
  {
    var room := result.Length - used - 1;
    var n := if |s| <= room then |s| else room;
    for i := 0 to n
      invariant result[..used] == old(result[..used])
      invariant result[used..used + i] == s[..i]
    {
      result[used + i] := s[i];
    }
    result[used + n] := NUL;
    return |s|;
  }

  lemma {:induction false} ShownClean(names: seq<Text>)
    requires forall i :: 0 <= i < |names| ==> NUL !in names[i]
    ensures NUL !in Shown(names)
  {
    if names != [] { ShownClean(names[..|names| - 1]); }
  }

  /** The loop over the rows: a separator, then each name with a space behind it until one is cut. */
  method FillNames(result: array<byte>, names: seq<Text>) returns (used: nat)
    requires result.Length >= 5 && result[..4] == DOTS && result[4] == NUL && names != []
    modifies result
    ensures 4 <= used < result.Length
    ensures result.Length == 5 ==> used == 4 && result[..4] == DOTS && result[4] == NUL
    ensures result.Length > 5 ==> result[..used] == Listed(names, result.Length) + [SPACE]
  {
    used := 4;
    if used + 1 < result.Length {
      result[used] := SPACE;
      used := used + 1;
      result[used] := NUL;
      assert result[..5] == DOTS + [SPACE];
    }
    var i := 0;
    assert names[..0] == [];
    while i < |names|
      invariant 0 <= i <= |names| && 4 <= used < result.Length
      invariant result.Length == 5 ==> i == 0 && used == 4 && result[..4] == DOTS && result[4] == NUL
      invariant result.Length > 5 ==> result[..used] == Shown(names[..i]) + [SPACE]
      invariant result.Length > 5 ==> Fits(names, result.Length) == Fitting(names, i, used, result.Length)
    {
      var left := result.Length - used;
      var ret := Print(result, used, names[i] + [SPACE]);
      if ret >= left {
        break;
      }
      assert names[..i + 1] == names[..i] + [names[i]];
      ShownAppend(names[..i], names[i]);
      assert result[..used + ret] == result[..used] + result[used..used + ret];
      used := used + ret;
      i := i + 1;
    }
  }

  /** dao_list_dir on the rows' names, in the order the query returned them; `works` is whether it did. */
  method ListDir(result: array<byte>, user: int, dir: int, names: seq<Text>, works: bool) returns (ok: bool)
    requires forall i :: 0 <= i < |names| ==> NUL !in names[i]
    modifies result
    ensures ok <==> user > 0 && dir > 0 && result.Length >= 5 && works
    ensures ok ==> CString(result[..]) == Listed(names, result.Length)
  {
    if user <= 0 || dir <= 0 {
      return false;
    }
    for i := 0 to result.Length
      invariant forall j :: 0 <= j < i ==> result[j] == NUL
    {
      result[i] := NUL;
    }
    if result.Length == 0 {
      return false;
    }
    var ret := Print(result, 0, DOTS);
    if ret >= result.Length || !works {
      return false;
    }
    var used := ret;
    if |names| > 0 {
      assert result[..4] == result[0..4] == DOTS;
      used := FillNames(result, names);
      if result[used - 1] == SPACE {
        result[used - 1] := NUL;
      }
      ShownClean(names[..Fits(names, result.Length)]);
      CStringAt(result[..], Listed(names, result.Length));
    } else {
      assert result[..4] == result[0..4] == DOTS;
      CStringAt(result[..], DOTS);
      assert names[..0] == [];
    }
    return true;
  }
}
