/** Optional values and fallible results. */
module Outcomes {
  datatype Option<+T> = None | Some(value: T)

  datatype Result<+T, +E> = Success(value: T) | Failure(error: E) {
    predicate IsFailure() { Failure? }

    function PropagateFailure<U>(): Result<U, E>
      requires Failure?
    {
      Failure(error)
    }

    function Extract(): T
      requires Success?
    {
      value
    }
  }
}

/** Byte strings, fixed-width little-endian integers and reading from a stream. */
module ByteStrings {
  type Byte = b: int | 0 <= b < 256
  type Bytes = seq<Byte>

  const U64_LIMIT := 0x1_0000_0000_0000_0000

  type U32 = n: nat | n < 0x1_0000_0000
  type U64 = n: nat | n < U64_LIMIT
  type Guid = s: Bytes | |s| == 16 witness Zeros(16)

  /** The page size, in bytes. */
  const PAGE := 4096

  function Zeros(n: nat): (s: Bytes)
    ensures |s| == n
  {
    seq(n, _ => 0)
  }

  function Pow256(n: nat): (p: nat)
    ensures p > 0
  {
    if n == 0 then 1 else 256 * Pow256(n - 1)
  }

  /** The `len` low bytes of `v`, least significant first. */
  function LeBytes(v: nat, len: nat): (s: Bytes)
    ensures |s| == len
  {
    if len == 0 then [] else [v % 256] + LeBytes(v / 256, len - 1)
  }

  function LeValue(s: Bytes): nat {
    if s == [] then 0 else s[0] + 256 * LeValue(s[1..])
  }

  lemma {:induction false} LeValueOfBytes(v: nat, len: nat)
    requires v < Pow256(len)
    ensures LeValue(LeBytes(v, len)) == v
  {
    if len > 0 {
      LeValueOfBytes(v / 256, len - 1);
      assert LeBytes(v, len)[1..] == LeBytes(v / 256, len - 1);
    }
  }

  lemma {:induction false} LeBytesOfValue(s: Bytes)
    ensures LeValue(s) < Pow256(|s|) && LeBytes(LeValue(s), |s|) == s
  {
    if s != [] {
      LeBytesOfValue(s[1..]);
      assert s == [s[0]] + s[1..];
      assert LeValue(s) / 256 == LeValue(s[1..]) && LeValue(s) % 256 == s[0];
    }
  }

  lemma LeInjective(v: nat, w: nat, len: nat)
    requires v < Pow256(len) && w < Pow256(len) && LeBytes(v, len) == LeBytes(w, len)
    ensures v == w
  {
    LeValueOfBytes(v, len);
    LeValueOfBytes(w, len);
  }

  lemma Powers()
    ensures Pow256(1) == 0x100 && Pow256(2) == 0x1_0000 && Pow256(4) == 0x1_0000_0000
    ensures Pow256(8) == 0x1_0000_0000_0000_0000
  {
    assert Pow256(3) == 0x100_0000;
    assert Pow256(5) == 0x100_0000_0000 && Pow256(6) == 0x1_0000_0000_0000;
    assert Pow256(7) == 0x100_0000_0000_0000;
  }

  /** A 32-bit word in memory. */
  function ReadU32(s: Bytes, at: nat): (v: U32)
    requires at + 4 <= |s|
  {
    LeBytesOfValue(s[at..at + 4]);
    Powers();
    LeValue(s[at..at + 4])
  }

  function GuidAt(s: Bytes, at: nat): Guid
    requires at + 16 <= |s|
  {
    s[at..at + 16]
  }

  /** A GUID is printed as three numbers and eight bytes; in memory the numbers have their low
      byte first. */
  function Stored(printed: Guid): Guid {
    [printed[3], printed[2], printed[1], printed[0], printed[5], printed[4], printed[7], printed[6]] + printed[8..]
  }

  /** The number in two bytes, low byte first. */
  function Pair(low: int, high: int): int { low + 256 * high }

  lemma PairValue(s: Bytes)
    requires |s| == 2
    ensures LeValue(s) == Pair(s[0], s[1])
  {
    assert LeValue(s[1..]) == s[1] + 256 * LeValue(s[1..][1..]);
  }

  lemma SliceOfSlice<T>(s: seq<T>, i: nat, j: nat, k: nat, l: nat)
    requires i <= j <= |s| && k <= l <= j - i
    ensures s[i..j][k..l] == s[i + k..i + l]
  {
    var a, b := s[i..j][k..l], s[i + k..i + l];
    assert forall n :: 0 <= n < l - k ==> a[n] == b[n];
  }

  lemma PrefixSlice<T>(a: seq<T>, b: seq<T>, i: nat, j: nat)
    requires i <= j <= |a|
    ensures (a + b)[i..j] == a[i..j]
  {
  }

  lemma SuffixSlice<T>(a: seq<T>, b: seq<T>, i: nat, j: nat)
    requires |a| <= i <= j <= |a| + |b|
    ensures (a + b)[i..j] == b[i - |a|..j - |a|]
  {
  }

  lemma Assoc<T>(a: seq<T>, b: seq<T>, c: seq<T>)
    ensures (a + b) + c == a + (b + c)
  {
  }

  lemma SliceMiddle<T>(a: seq<T>, b: seq<T>, c: seq<T>)
    ensures (a + b + c)[|a|..|a| + |b|] == b
  {
  }

  /** The parts of a four-field header of 32-bit words. */
  lemma Quarters(a: Bytes, b: Bytes, c: Bytes, d: Bytes, rest: Bytes)
    requires |a| == 4 && |b| == 4 && |c| == 4 && |d| == 4
    ensures var m := a + b + c + d + rest;
            m[0..4] == a && m[4..8] == b && m[8..12] == c && m[12..16] == d && m[16..|m|] == rest
  {
  }

  /** Equal concatenations whose first parts have equal length have equal parts. */
  lemma SplitEqual<T>(a: seq<T>, b: seq<T>, a': seq<T>, b': seq<T>)
    requires a + b == a' + b' && |a| == |a'|
    ensures a == a' && b == b'
  {
    assert a == (a + b)[..|a|] && a' == (a' + b')[..|a|];
    assert b == (a + b)[|a|..] && b' == (a' + b')[|a|..];
  }
}
