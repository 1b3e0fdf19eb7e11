/** The several ways the library moves big integers to and from fixed-width little-endian
    fields. */
module Integers {
  import opened ByteStrings

  function Reverse(s: Bytes): (r: Bytes)
    ensures |r| == |s|
    ensures forall i :: 0 <= i < |s| ==> r[i] == s[|s| - 1 - i]
  {
    if s == [] then [] else Reverse(s[1..]) + [s[0]]
  }

  /** `BigNum::to_vec`: big-endian, without leading zeros. */
  function BigEndian(n: nat): Bytes {
    if n == 0 then [] else BigEndian(n / 256) + [n % 256]
  }

  /** `BigNum::from_slice`: the value of a big-endian byte string. */
  function FromBigEndian(s: Bytes): nat {
    if s == [] then 0 else 256 * FromBigEndian(s[..|s|-1]) + s[|s|-1]
  }

  /** `BigNum::to_vec_padded`: big-endian in exactly `size` bytes. */
  function ToVecPadded(n: nat, size: nat): (s: Bytes)
    requires n < Pow256(size)
    ensures |s| == size
  {
    BigEndianFits(n, size);
    Zeros(size - |BigEndian(n)|) + BigEndian(n)
  }

  lemma {:induction false} BigEndianFits(n: nat, size: nat)
    requires n < Pow256(size)
    ensures |BigEndian(n)| <= size
  {
    if n > 0 { BigEndianFits(n / 256, size - 1); }
  }

  /** `FromLe::from_le`. */
  function FromLe(s: Bytes): nat {
    FromBigEndian(Reverse(s))
  }

  lemma {:induction false} FromLeIsLeValue(s: Bytes)
    ensures FromLe(s) == LeValue(s)
  {
    if s != [] {
      FromLeIsLeValue(s[1..]);
      assert Reverse(s)[..|s|-1] == Reverse(s[1..]);
    }
  }

  /** Reversing the padded big-endian form gives the little-endian form. */
  lemma {:induction false} PaddedReversed(n: nat, size: nat)
    requires n < Pow256(size)
    ensures Reverse(ToVecPadded(n, size)) == LeBytes(n, size)
  {
    BigEndianFits(n, size);
    var p := ToVecPadded(n, size);
    if size > 0 {
      var q := ToVecPadded(n / 256, size - 1);
      PaddedReversed(n / 256, size - 1);
      assert p == q + [n % 256];
      forall i | 0 <= i < size ensures Reverse(p)[i] == LeBytes(n, size)[i] {
        assert i > 0 ==> Reverse(p)[i] == p[size - 1 - i] == q[size - 1 - i] == Reverse(q)[i - 1];
      }
    }
  }

  /** `AsLeBytes::as_le_bytes`: reverses the minimal big-endian form into a zeroed buffer.
      The index panics exactly when the number does not fit. */
  method AsLeBytes(n: nat, size: nat) returns (buf: array<Byte>)
    requires n < Pow256(size)
    ensures fresh(buf) && buf[..] == LeBytes(n, size)
  {
    var v := BigEndian(n);
    BigEndianFits(n, size);
    buf := new Byte[size](_ => 0);
    for i := 0 to |v|
      invariant forall k :: 0 <= k < i ==> buf[k] == v[|v| - 1 - k]
      invariant forall k :: i <= k < size ==> buf[k] == 0
    {
      buf[i] := v[|v| - 1 - i];
    }
    PaddedReversed(n, size);
    assert buf[..] == Reverse(ToVecPadded(n, size));
  }

  /** Both directions: the number survives the buffer, and the buffer survives the number. */
  lemma BigNumRoundTrip(n: nat, size: nat, field: Bytes)
    requires n < Pow256(size) && |field| == size
    ensures FromLe(LeBytes(n, size)) == n
    ensures FromLe(field) < Pow256(size) && LeBytes(FromLe(field), size) == field
    ensures FromLe(Reverse(ToVecPadded(n, size))) == n
  {
    FromLeIsLeValue(LeBytes(n, size));
    FromLeIsLeValue(field);
    LeValueOfBytes(n, size);
    LeBytesOfValue(field);
    PaddedReversed(n, size);
  }

  const FIELD := 72
  const SCALAR := 48

  /** The pure-Rust path: the first 48 bytes of the field, reversed, as a big-endian scalar. */
  function ScalarOf(field: Bytes): nat
    requires |field| == FIELD
  {
    FromBigEndian(Reverse(field[..SCALAR]))
  }

  lemma Scale(v: nat, p: nat, w: nat)
    ensures 256 * (v + p * w) == 256 * v + (256 * p) * w
  {
    var x := p * w;
    assert (256 * p) * w == 256 * x;
  }

  lemma {:induction false} LeValueSplit(a: Bytes, b: Bytes)
    ensures LeValue(a + b) == LeValue(a) + Pow256(|a|) * LeValue(b)
  {
    if a == [] {
      assert a + b == b;
    } else {
      LeValueSplit(a[1..], b);
      assert (a + b)[1..] == a[1..] + b;
      Scale(LeValue(a[1..]), Pow256(|a| - 1), LeValue(b));
    }
  }

  /** The pure-Rust path reads the field modulo 256^48, so the two paths agree on a field if
      and only if its value fits in 48 bytes. */
  lemma PathsAgree(field: Bytes)
    requires |field| == FIELD
    ensures ScalarOf(field) == FromLe(field) % Pow256(SCALAR)
    ensures ScalarOf(field) == FromLe(field) <==> FromLe(field) < Pow256(SCALAR)
  {
    var lo, hi := field[..SCALAR], field[SCALAR..];
    assert field == lo + hi;
    FromLeIsLeValue(field);
    FromLeIsLeValue(lo);
    LeValueSplit(lo, hi);
    LeBytesOfValue(lo);
    DivModUnique(LeValue(field), Pow256(SCALAR), LeValue(hi), LeValue(lo));
  }

  lemma DivModUnique(n: nat, d: nat, q: nat, r: nat)
    requires d > 0 && n == r + d * q && r < d
    ensures n % d == r
    ensures n == r <==> n < d
  {
    var q', r' := n / d, n % d;
    assert n == r' + d * q';
    Ordered(d, q, q');
    Ordered(d, q', q);
    Ordered(d, 0, q);
  }

  lemma {:induction false} Ordered(d: nat, a: nat, b: nat)
    ensures a < b ==> d * a + d <= d * b
  {
    if a < b {
      assert d * b == d * (b - 1) + d;
      if a < b - 1 { Ordered(d, a, b - 1); }
    }
  }

  lemma {:induction false} PowMonotone(a: nat, b: nat)
    requires a <= b
    ensures Pow256(a) <= Pow256(b)
  {
    if a < b { PowMonotone(a, b - 1); }
  }

  /** A signature written by OpenSSL is read as the same pair by both back ends. */
  lemma SignatureFields(r: nat, s: nat)
    requires r < Pow256(SCALAR) && s < Pow256(SCALAR)
    ensures FromLe(LeBytes(r, FIELD)) == r && ScalarOf(LeBytes(r, FIELD)) == r
    ensures FromLe(LeBytes(s, FIELD)) == s && ScalarOf(LeBytes(s, FIELD)) == s
  {
    PowMonotone(SCALAR, FIELD);
    BigNumRoundTrip(r, FIELD, LeBytes(r, FIELD));
    BigNumRoundTrip(s, FIELD, LeBytes(s, FIELD));
    PathsAgree(LeBytes(r, FIELD));
    PathsAgree(LeBytes(s, FIELD));
  }
}
