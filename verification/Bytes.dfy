/** Bytes, little-endian words and the sequence helpers the drivers' buffers need. */
module Bytes {

  type byte = x: int | 0 <= x < 0x100
  type u16 = x: int | 0 <= x < 0x1_0000
  type u32 = x: int | 0 <= x < 0x1_0000_0000
  type u64 = x: int | 0 <= x < 0x1_0000_0000_0000_0000

  function Min(a: int, b: int): int {
    if a < b then a else b
  }

  function Zeros(n: nat): (s: seq<byte>)
    ensures |s| == n
  {
    seq(n, _ => 0)
  }

  /** The two bytes of a 16-bit field, least significant first. */
  function Le16(n: u16): (s: seq<byte>)
    ensures |s| == 2
  {
    [n % 0x100, n / 0x100]
  }

  /** The four bytes of a 32-bit field, least significant first. */
  function Le32(n: u32): (s: seq<byte>)
    ensures |s| == 4
  {
    [n % 0x100, n / 0x100 % 0x100, n / 0x1_0000 % 0x100, n / 0x100_0000]
  }

  /** The 16-bit field at offset `at`. */
  function Get16(s: seq<byte>, at: nat): u16
    requires at + 2 <= |s|
  {
    s[at] as int + 0x100 * (s[at + 1] as int)
  }

  /** The 32-bit field at offset `at`. */
  function Get32(s: seq<byte>, at: nat): u32
    requires at + 4 <= |s|
  {
    s[at] as int + 0x100 * (s[at + 1] as int) + 0x1_0000 * (s[at + 2] as int) + 0x100_0000 * (s[at + 3] as int)
  }

  lemma Get32Le32(n: u32)
    ensures Get32(Le32(n), 0) == n
  {
    assert n / 0x1_0000 == n / 0x100 / 0x100;
    assert n / 0x100_0000 == n / 0x1_0000 / 0x100;
  }

  /** Whether `t` occurs in `s` at offset `at`. */
  predicate Holds(s: seq<byte>, at: nat, t: seq<byte>) {
    at + |t| <= |s| && s[at..at + |t|] == t
  }

  lemma Get32Holds(s: seq<byte>, at: nat, n: u32)
    requires Holds(s, at, Le32(n))
    ensures Get32(s, at) == n
  {
    var t := s[at..at + 4];
    assert t[0] == s[at] && t[1] == s[at + 1] && t[2] == s[at + 2] && t[3] == s[at + 3];
    Get32Le32(n);
  }

  lemma Get16Holds(s: seq<byte>, at: nat, n: u16)
    requires Holds(s, at, Le16(n))
    ensures Get16(s, at) == n
  {
    var t := s[at..at + 2];
    assert t[0] == s[at] && t[1] == s[at + 1];
  }

  /** `s` with the bytes from offset `at` on overwritten by `t`. */
  function Splice(s: seq<byte>, at: nat, t: seq<byte>): (r: seq<byte>)
    requires at + |t| <= |s|
    ensures |r| == |s|
    ensures Holds(r, at, t)
    ensures forall k :: 0 <= k < |s| && (k < at || at + |t| <= k) ==> r[k] == s[k]
  {
    s[..at] + t + s[at + |t|..]
  }

  /** Overwriting one place leaves what another, disjoint place holds. */
  lemma SpliceKeeps(s: seq<byte>, at: nat, t: seq<byte>, other: nat, u: seq<byte>)
    requires at + |t| <= |s|
    requires other + |u| <= at || at + |t| <= other
    requires Holds(s, other, u)
    ensures Holds(Splice(s, at, t), other, u)
  {
    var r := Splice(s, at, t);
    assert forall k :: other <= k < other + |u| ==> r[k] == s[k];
    assert r[other..other + |u|] == s[other..other + |u|];
  }

  lemma SliceOfSlice(s: seq<byte>, a: nat, b: nat, c: nat, d: nat)
    requires a <= b <= |s| && c <= d <= b - a
    ensures s[a..b][c..d] == s[a + c..a + d]
  {
    var l, r := s[a..b][c..d], s[a + c..a + d];
    assert |l| == |r|;
    assert forall k :: 0 <= k < |l| ==> l[k] == s[a..b][c + k] == r[k];
  }

  lemma SplicePrefix(s: seq<byte>, at: nat, t: seq<byte>)
    requires at + |t| <= |s|
    ensures Splice(s, at, t)[..at + |t|] == s[..at] + t
  {
  }

  lemma ArraySplice(b: array<byte>, was: seq<byte>, at: nat, t: seq<byte>)
    requires b.Length == |was| && at + |t| <= |was|
    requires forall k :: 0 <= k < |was| ==> b[k] == if at <= k < at + |t| then t[k - at] else was[k]
    ensures b[..] == Splice(was, at, t)
  {
    var r := Splice(was, at, t);
    assert r[at..at + |t|] == t;
    forall k | 0 <= k < |was| ensures b[k] == r[k] {
      if at <= k < at + |t| {
        assert r[k] == r[at..at + |t|][k - at];
      }
    }
  }

  /** memcpy into a buffer. */
  method Put(b: array<byte>, at: nat, t: seq<byte>)
    requires at + |t| <= b.Length
    modifies b
    ensures b[..] == Splice(old(b[..]), at, t)
  {
    ghost var was := b[..];
    forall k | 0 <= k < |t| {
      b[at + k] := t[k];
    }
    ArraySplice(b, was, at, t);
  }

  /** memset to zero of the first `n` bytes. */
  method Clear(b: array<byte>, n: nat)
    requires n <= b.Length
    modifies b
    ensures b[..] == Splice(old(b[..]), 0, Zeros(n))
    ensures b[..n] == Zeros(n)
  {
    ghost var was := b[..];
    forall k | 0 <= k < n {
      b[k] := 0;
    }
    ArraySplice(b, was, 0, Zeros(n));
  }
}
