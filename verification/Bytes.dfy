/** Bytes, C strings and the little-endian integers of the packet structs. */
module Bytes {

  newtype byte = x: int | 0 <= x < 256

  type Text = seq<byte>

  const NUL: byte := 0
  const SPACE: byte := 32
  const DOT: byte := 46
  const SLASH: byte := 47

  function Zeros(n: nat): (r: Text)
    ensures |r| == n && forall i :: 0 <= i < n ==> r[i] == 0
  {
    seq(n, i => 0)
  }

  /** At most the first n bytes. */
  function Cut(s: Text, n: nat): (r: Text)
    ensures |r| == if n <= |s| then n else |s|
  {
    if n <= |s| then s[..n] else s
  }

  lemma CutConcat(a: Text, b: Text, n: nat)
    ensures Cut(a + b, n) == Cut(a, n) + Cut(b, n - |Cut(a, n)|)
  {
  }

  lemma CutExtend(out: Text, a: Text, b: Text, n: nat)
    ensures (out + Cut(a, n)) + Cut(b, n - |Cut(a, n)|) == out + Cut(a + b, n)
    ensures n - |Cut(a, n)| - |Cut(b, n - |Cut(a, n)|)| == n - |Cut(a + b, n)|
  {
    CutConcat(a, b, n);
  }

  lemma SliceOfSlice(s: Text, a: nat, n: nat, i: nat, j: nat)
    requires a <= n <= |s| && i <= j <= n - a
    ensures s[a..n][i..j] == s[a + i..a + j]
  {
    var part := s[a..n];
    assert forall k :: 0 <= k < n - a ==> part[k] == s[a + k];
    assert part[i..j] == s[a + i..a + j];
  }

  /** The C string at the start of a buffer: everything before the first NUL. */
  function CString(buf: Text): (r: Text)
    ensures |r| <= |buf| && r == buf[..|r|]
    ensures NUL !in r
    ensures |r| < |buf| ==> buf[|r|] == NUL
  {
    if buf == [] || buf[0] == NUL then [] else [buf[0]] + CString(buf[1..])
  }

  lemma {:induction false} CStringOf(text: Text, rest: Text)
    requires NUL !in text && (rest == [] || rest[0] == NUL)
    ensures CString(text + rest) == text
  {
    if text == [] {
      assert text + rest == rest;
    } else {
      assert (text + rest)[1..] == text[1..] + rest;
      CStringOf(text[1..], rest);
    }
  }

  lemma CStringAt(buf: Text, text: Text)
    requires NUL !in text && |text| < |buf| && buf[..|text|] == text && buf[|text|] == NUL
    ensures CString(buf) == text
  {
    assert buf == text + buf[|text|..];
    CStringOf(text, buf[|text|..]);
  }

  /* ---------- little-endian integers ---------- */

  function Pow256(k: nat): (p: nat)
    ensures p > 0
  {
    if k == 0 then 1 else 256 * Pow256(k - 1)
  }

  function ToLittle(n: nat, k: nat): (r: Text)
    ensures |r| == k
  {
    if k == 0 then [] else [(n % 256) as byte] + ToLittle(n / 256, k - 1)
  }

  function FromLittle(b: Text): (n: nat) {
    if b == [] then 0 else b[0] as int + 256 * FromLittle(b[1..])
  }

  lemma {:induction false} LittleRoundTrip(n: nat, k: nat)
    requires n < Pow256(k)
    ensures FromLittle(ToLittle(n, k)) == n
  {
    if k > 0 {
      LittleRoundTrip(n / 256, k - 1);
    }
  }

  predicate FitsSigned(n: int, k: nat) {
    var m: int := Pow256(k);
    -m <= 2 * n < m
  }

  /** Two's complement in `k` bytes. */
  function ToSigned(n: int, k: nat): (r: Text)
    requires FitsSigned(n, k)
    ensures |r| == k
  {
    ToLittle(if n < 0 then n + Pow256(k) else n, k)
  }

  function FromSigned(b: Text): int {
    var n := FromLittle(b);
    if 2 * n < Pow256(|b|) then n else n - Pow256(|b|)
  }

  lemma SignedRoundTrip(n: int, k: nat)
    requires FitsSigned(n, k)
    ensures FromSigned(ToSigned(n, k)) == n
  {
    LittleRoundTrip(if n < 0 then n + Pow256(k) else n, k);
  }

  lemma {:induction false} LittleBound(b: Text)
    ensures FromLittle(b) < Pow256(|b|)
  {
    if b == [] {
    } else {
      LittleBound(b[1..]);
    }
  }

  /** C's int and off_t, and their sizes in the structs. */
  type int32 = x: int | -0x8000_0000 <= x < 0x8000_0000

  type int64 = x: int | -0x8000_0000_0000_0000 <= x < 0x8000_0000_0000_0000

  lemma Int32Fits(x: int32)
    ensures FitsSigned(x, 4)
  {
    assert Pow256(4) == 0x1_0000_0000 by { assert Pow256(2) == 0x1_0000; }
  }

  lemma Int64Fits(x: int64)
    ensures FitsSigned(x, 8)
  {
    assert Pow256(2) == 0x1_0000;
    assert Pow256(4) == 0x1_0000_0000;
    assert Pow256(6) == 0x1_0000_0000_0000;
    assert Pow256(8) == 0x1_0000_0000_0000_0000;
  }

  lemma SignedInRange(b: Text)
    requires |b| == 4 || |b| == 8
    ensures |b| == 4 ==> -0x8000_0000 <= FromSigned(b) < 0x8000_0000
    ensures |b| == 8 ==> -0x8000_0000_0000_0000 <= FromSigned(b) < 0x8000_0000_0000_0000
  {
    LittleBound(b);
    assert Pow256(2) == 0x1_0000;
    assert Pow256(4) == 0x1_0000_0000;
    assert Pow256(6) == 0x1_0000_0000_0000;
    assert Pow256(8) == 0x1_0000_0000_0000_0000;
  }
}
