/** Small shared vocabulary: optional values, counting and the initial segment of the naturals. */
module Basics {

  datatype Option<+T> = None | Some(value: T)

  function Min(a: int, b: int): int {
    if a <= b then a else b
  }

  /** The sequence 0, 1, .., n-1. */
  function Iota(n: nat): (r: seq<nat>)
    ensures |r| == n
    ensures forall i :: 0 <= i < n ==> r[i] == i
  {
    seq(n, i => i)
  }

  ghost predicate NoDuplicates<T>(s: seq<T>) {
    forall i, j :: 0 <= i < j < |s| ==> s[i] != s[j]
  }

  lemma Associative<T>(a: seq<T>, b: seq<T>, c: seq<T>)
    ensures (a + b) + c == a + (b + c)
  {
  }

  /** How many entries of `s` satisfy `p`. */
  ghost function Count<T(!new)>(s: seq<T>, p: T -> bool): nat {
    if s == [] then 0 else (if p(s[0]) then 1 else 0) + Count(s[1..], p)
  }

  lemma {:induction false} CountUpdate<T(!new)>(s: seq<T>, p: T -> bool, i: nat, v: T)
    requires i < |s|
    ensures Count(s[i := v], p) + (if p(s[i]) then 1 else 0) == Count(s, p) + (if p(v) then 1 else 0)
  {
    if i == 0 {
      assert s[i := v][1..] == s[1..];
    } else {
      assert s[i := v][1..] == s[1..][i - 1 := v];
      CountUpdate(s[1..], p, i - 1, v);
    }
  }

  lemma {:induction false} CountAppend<T(!new)>(s: seq<T>, p: T -> bool, v: T)
    ensures Count(s + [v], p) == Count(s, p) + (if p(v) then 1 else 0)
  {
    if s == [] {
      assert (s + [v])[1..] == [];
    } else {
      assert (s + [v])[1..] == s[1..] + [v];
      CountAppend(s[1..], p, v);
    }
  }

  lemma {:induction false} CountZero<T(!new)>(s: seq<T>, p: T -> bool)
    ensures Count(s, p) == 0 <==> forall i :: 0 <= i < |s| ==> !p(s[i])
  {
    if s != [] {
      CountZero(s[1..], p);
      if Count(s, p) == 0 {
        forall i | 0 <= i < |s| ensures !p(s[i]) {
          if i > 0 { assert s[i] == s[1..][i - 1]; }
        }
      } else if p(s[0]) {
      } else {
        var i :| 0 <= i < |s[1..]| && p(s[1..][i]);
        assert p(s[i + 1]);
      }
    }
  }

  lemma {:induction false} CountBound<T(!new)>(s: seq<T>, p: T -> bool)
    ensures Count(s, p) <= |s|
  {
    if s != [] { CountBound(s[1..], p); }
  }

  /** If every entry satisfying `p` in `s` also does in `t`, then `t` has at least as many; strictly
      more when some entry of `t` does and the matching entry of `s` does not. */
  lemma {:induction false} CountMonotone<T(!new)>(s: seq<T>, t: seq<T>, p: T -> bool)
    requires |s| == |t|
    requires forall i :: 0 <= i < |s| && p(s[i]) ==> p(t[i])
    ensures Count(s, p) <= Count(t, p)
    ensures (exists i :: 0 <= i < |s| && p(t[i]) && !p(s[i])) ==> Count(s, p) < Count(t, p)
  {
    if s != [] {
      CountMonotone(s[1..], t[1..], p);
      if exists i :: 0 <= i < |s| && p(t[i]) && !p(s[i]) {
        var i :| 0 <= i < |s| && p(t[i]) && !p(s[i]);
        if i > 0 { assert p(t[1..][i - 1]) && !p(s[1..][i - 1]); }
      }
    }
  }
}
