/** The tenant's side of the secure channel with the AMD Secure Processor: wrapping the
    transport keys, checking the launch measurement and packaging secrets.

    HMAC, SHA-256 and the AES-CTR keystream are arbitrary functions.  The receiving side of
    each exchange is written independently; messages follow sections 6.5 and 6.6 of the SEV API
    specification (AMD publication 55766). */
module TenantSession {
  import opened ByteStrings
  import opened Outcomes
  import opened Macs
  import opened KeyDerivation

  // ---------- exclusive or ----------

  function Pow2(n: nat): (p: nat)
    ensures p > 0
  {
    if n == 0 then 1 else 2 * Pow2(n - 1)
  }

  function XorBits(a: nat, b: nat, n: nat): (r: nat)
    ensures r < Pow2(n)
  {
    if n == 0 then 0 else (if a % 2 != b % 2 then 1 else 0) + 2 * XorBits(a / 2, b / 2, n - 1)
  }

  lemma {:induction false} XorTwice(a: nat, b: nat, n: nat)
    requires a < Pow2(n)
    ensures XorBits(XorBits(a, b, n), b, n) == a
  {
    if n > 0 {
      XorTwice(a / 2, b / 2, n - 1);
      var x := XorBits(a, b, n);
      assert x / 2 == XorBits(a / 2, b / 2, n - 1);
      assert x % 2 == if a % 2 != b % 2 then 1 else 0;
    }
  }

  function Xor(a: Byte, b: Byte): Byte {
    assert Pow2(8) == 256 by { assert Pow2(4) == 16; }
    XorBits(a, b, 8)
  }

  lemma XorUndone(a: Byte, b: Byte)
    ensures Xor(Xor(a, b), b) == a
  {
    assert Pow2(8) == 256 by { assert Pow2(4) == 16; }
    XorTwice(a, b, 8);
  }

  function Bit(v: nat, i: nat): nat {
    if i == 0 then v % 2 else Bit(v / 2, i - 1)
  }

  /** A bit of the result is set exactly when the two bits differ. */
  lemma {:induction false} XorBit(a: nat, b: nat, n: nat, i: nat)
    requires i < n
    ensures Bit(XorBits(a, b, n), i) == (Bit(a, i) + Bit(b, i)) % 2
  {
    var x := XorBits(a, b, n);
    assert x / 2 == XorBits(a / 2, b / 2, n - 1);
    if i > 0 { XorBit(a / 2, b / 2, n - 1, i - 1); }
  }

  lemma XorByte(a: Byte, b: Byte, i: nat)
    requires i < 8
    ensures Bit(Xor(a, b), i) == (Bit(a, i) + Bit(b, i)) % 2
  {
    XorBit(a, b, 8, i);
  }

  // ---------- counter mode ----------

  type Stream = nat -> Byte
  type Keystream = (Bytes, Bytes) -> Stream

  /** Data combined with the keystream from a position on. */
  function Crypt(data: Bytes, stream: Stream, pos: nat): (s: Bytes)
    ensures |s| == |data|
  {
    seq(|data|, i requires 0 <= i < |data| => Xor(data[i], stream(pos + i)))
  }

  lemma CryptTwice(data: Bytes, stream: Stream, pos: nat)
    ensures Crypt(Crypt(data, stream, pos), stream, pos) == data
  {
    forall i | 0 <= i < |data| ensures Crypt(Crypt(data, stream, pos), stream, pos)[i] == data[i] {
      XorUndone(data[i], stream(pos + i));
    }
  }

  lemma CryptAppend(a: Bytes, b: Bytes, stream: Stream, pos: nat)
    ensures Crypt(a + b, stream, pos) == Crypt(a, stream, pos) + Crypt(b, stream, pos + |a|)
  {
  }

  /** `symm::Crypter`, which continues the keystream from one update to the next. */
  class Crypter {
    const stream: Stream
    var pos: nat

    constructor (stream: Stream)
      ensures this.stream == stream && pos == 0
    {
      this.stream, this.pos := stream, 0;
    }

    method Update(input: Bytes, out: array<Byte>, off: nat) returns (n: nat)
      requires off + |input| <= out.Length
      modifies this, out
      ensures n == |input| && pos == old(pos) + |input|
      ensures out[off..off + n] == Crypt(input, stream, old(pos))
      ensures out[..off] == old(out[..off])
    {
      for i := 0 to |input|
        invariant pos == old(pos)
        invariant forall k :: 0 <= k < i ==> out[off + k] == Crypt(input, stream, pos)[k]
        invariant forall k :: 0 <= k < off ==> out[k] == old(out[k])
      {
        out[off + i] := Xor(input[i], stream(pos + i));
      }
      pos := pos + |input|;
      n := |input|;
    }
  }

  // ---------- starting a session ----------

  type Quad = s: Bytes | |s| == 4 witness Zeros(4)
  type Block16 = s: Bytes | |s| == 16 witness Zeros(16)

  datatype Session = Session(policy: Quad, tek: Bytes, tik: Bytes)

  /** The session part of LAUNCH_START. */
  datatype Opening = Opening(policyMac: Mac, wrapMac: Mac, wrapTk: Bytes, wrapIv: Block16, nonce: Block16)

  function AsciiByte(s: string, i: nat): Byte
    requires i < |s| && forall c :: c in s ==> c < 128 as char
  {
    assert s[i] in s;
    s[i] as int
  }

  function Ascii(s: string): (b: Bytes)
    requires forall c :: c in s ==> c < 128 as char
    ensures |b| == |s|
  {
    seq(|s|, i requires 0 <= i < |s| => AsciiByte(s, i))
  }

  const MASTER: Bytes := Ascii("sev-master-secret")
  const KEK: Bytes := Ascii("sev-kek")
  const KIK: Bytes := Ascii("sev-kik")

  /** What the session sends, for a shared secret `z`. */
  function OpeningOf(hmac: Hmac, ctr: Keystream, s: Session, nonce: Block16, iv: Block16, z: Bytes): Opening {
    var master := Derived(hmac, z, 16, nonce, MASTER);
    var kek, kik := Derived(hmac, master, 16, [], KEK), Derived(hmac, master, 16, [], KIK);
    var wrap := Crypt(s.tek + s.tik, ctr(kek, iv), 0);
    Opening(hmac(s.tik, s.policy), hmac(kik, wrap), wrap, iv, nonce)
  }

  method KeyMac(hmac: Hmac, key: Bytes, data: Bytes) returns (mac: Mac)
    ensures mac == hmac(key, data)
  {
    var sig := new Signer(hmac, key);
    sig.Update(data);
    assert [] + data == data;
    mac := sig.Sign();
  }

  method DeriveKey(hmac: Hmac, key: Bytes, ctx: Bytes, purpose: Bytes) returns (derived: Bytes)
    ensures derived == Derived(hmac, key, 16, ctx, purpose)
  {
    var r := Derive(hmac, key, 16, ctx, purpose);
    derived := r.value;
  }

  lemma Halves(s: Bytes, k: nat)
    requires k <= |s|
    ensures s == s[..k] + s[k..]
  {
  }

  /** The two keys are encrypted one after the other into a 32-byte buffer. */
  method WrapKeys(stream: Stream, tek: Bytes, tik: Bytes) returns (wrap: Bytes)
    requires |tek| + |tik| == 32
    ensures wrap == Crypt(tek + tik, stream, 0)
  {
    var crypter := new Crypter(stream);
    var buf := new Byte[32](_ => 0);
    var off := 0;
    var n := crypter.Update(tek, buf, off);
    off := off + n;
    assert buf[..off] == buf[0..off];
    n := crypter.Update(tik, buf, off);
    off := off + n;
    CryptAppend(tek, tik, stream, 0);
    wrap := buf[..];
    Halves(wrap, |tek|);
  }

  /** `Session::session`; it panics unless the keys fill the buffer. */
  method OpenSession(hmac: Hmac, ctr: Keystream, s: Session, nonce: Block16, iv: Block16, z: Bytes) returns (o: Opening)
    requires |s.tek| + |s.tik| == 32
    ensures o == OpeningOf(hmac, ctr, s, nonce, iv, z)
  {
    var master := DeriveKey(hmac, z, nonce, MASTER);
    var kek := DeriveKey(hmac, master, [], KEK);
    var kik := DeriveKey(hmac, master, [], KIK);
    var wrap := WrapKeys(ctr(kek, iv), s.tek, s.tik);
    var wmac := KeyMac(hmac, kik, wrap);
    var pmac := KeyMac(hmac, s.tik, s.policy);
    o := Opening(pmac, wmac, wrap, iv, nonce);
  }

  /** The receiving side: check the wrapping, recover the keys, check the policy. */
  function Receive(hmac: Hmac, ctr: Keystream, policy: Quad, z: Bytes, o: Opening): Option<(Bytes, Bytes)> {
    var master := Derived(hmac, z, 16, o.nonce, MASTER);
    var kek, kik := Derived(hmac, master, 16, [], KEK), Derived(hmac, master, 16, [], KIK);
    if |o.wrapTk| != 32 || hmac(kik, o.wrapTk) != o.wrapMac then None
    else
      var keys := Crypt(o.wrapTk, ctr(kek, o.wrapIv), 0);
      if hmac(keys[16..], policy) != o.policyMac then None else Some((keys[..16], keys[16..]))
  }

  /** For any keystream and HMAC, a receiver with the shared secret accepts the opening and
      recovers both transport keys. */
  lemma KeysArrive(hmac: Hmac, ctr: Keystream, s: Session, nonce: Block16, iv: Block16, z: Bytes)
    requires |s.tek| == 16 && |s.tik| == 16
    ensures Receive(hmac, ctr, s.policy, z, OpeningOf(hmac, ctr, s, nonce, iv, z)) == Some((s.tek, s.tik))
  {
    var master := Derived(hmac, z, 16, nonce, MASTER);
    var kek := Derived(hmac, master, 16, [], KEK);
    CryptTwice(s.tek + s.tik, ctr(kek, iv), 0);
    assert (s.tek + s.tik)[..16] == s.tek && (s.tek + s.tik)[16..] == s.tik;
  }

  ghost predicate Spells(b: Bytes, s: string) {
    |b| == |s| && forall i :: 0 <= i < |s| ==> b[i] == s[i] as int
  }

  /** A 16-byte key derived under a printed label. */
  ghost predicate IsKey(hmac: Hmac, key: Bytes, ctx: Bytes, name: string, derived: Bytes) {
    exists p, x :: Spells(p, name) && IsBlockInput(x, 1, p, ctx, 128) && derived == hmac(key, x)[0..16]
  }

  lemma KeyDerived(hmac: Hmac, key: Bytes, ctx: Bytes, name: string)
    requires forall c :: c in name ==> c < 128 as char
    ensures IsKey(hmac, key, ctx, name, Derived(hmac, key, 16, ctx, Ascii(name)))
  {
    OneBlock(hmac, key, ctx, Ascii(name));
    assert Spells(Ascii(name), name);
  }

  /** The opening in full: which keys are derived from what, what they encrypt and sign. */
  lemma OpeningExact(hmac: Hmac, ctr: Keystream, s: Session, nonce: Block16, iv: Block16, z: Bytes)
      returns (master: Bytes, kek: Bytes, kik: Bytes)
    ensures IsKey(hmac, z, nonce, "sev-master-secret", master)
    ensures IsKey(hmac, master, [], "sev-kek", kek) && IsKey(hmac, master, [], "sev-kik", kik)
    ensures var o := OpeningOf(hmac, ctr, s, nonce, iv, z);
            && o.wrapIv == iv && o.nonce == nonce
            && o.policyMac == hmac(s.tik, s.policy) && o.wrapMac == hmac(kik, o.wrapTk)
            && |o.wrapTk| == |s.tek| + |s.tik|
            && forall i :: 0 <= i < |o.wrapTk| ==>
                 o.wrapTk[i] == Xor(if i < |s.tek| then s.tek[i] else s.tik[i - |s.tek|], ctr(kek, iv)(i))
  {
    master := Derived(hmac, z, 16, nonce, MASTER);
    kek, kik := Derived(hmac, master, 16, [], KEK), Derived(hmac, master, 16, [], KIK);
    KeyDerived(hmac, z, nonce, "sev-master-secret");
    KeyDerived(hmac, master, [], "sev-kek");
    KeyDerived(hmac, master, [], "sev-kik");
  }

  // ---------- what is authenticated under the TIK ----------

  type Build = s: Bytes | |s| == 3 witness Zeros(3)
  type Measure32 = s: Bytes | |s| == 32 witness Zeros(32)

  /** The three kinds of message; a secret is as long as its ciphertext. */
  datatype Message =
    | PolicyMessage(policy: Quad)
    | MeasureMessage(build: Build, policy: Quad, digest: Bytes, mnonce: Block16)
    | SecretMessage(flags: Quad, iv: Block16, ciphertext: Bytes, measure: Measure32)

  /** A length cast to 32 bits. */
  function Len32(s: Bytes): (r: Bytes)
    ensures |r| == 4
  {
    LeBytes(|s| % 0x1_0000_0000, 4)
  }

  function Encode(m: Message): Bytes {
    match m
    case PolicyMessage(policy) => policy
    case MeasureMessage(build, policy, digest, mnonce) => [4] + build + policy + digest + mnonce
    case SecretMessage(flags, iv, ct, measure) => [1] + flags + iv + Len32(ct) + Len32(ct) + ct + measure
  }

  lemma MeasureFraming(b: Build, p: Quad, d: Bytes, n: Block16, b': Build, p': Quad, d': Bytes, n': Block16)
    requires Encode(MeasureMessage(b, p, d, n)) == Encode(MeasureMessage(b', p', d', n'))
    ensures b == b' && p == p' && d == d' && n == n'
  {
    SplitEqual([4] + b + p + d, n, [4] + b' + p' + d', n');
    SplitEqual([4] + b + p, d, [4] + b' + p', d');
    SplitEqual([4] + b, p, [4] + b', p');
    SplitEqual([4], b, [4], b');
  }

  lemma SecretFraming(f: Quad, i: Block16, c: Bytes, m: Measure32, f': Quad, i': Block16, c': Bytes, m': Measure32)
    requires Encode(SecretMessage(f, i, c, m)) == Encode(SecretMessage(f', i', c', m'))
    ensures f == f' && i == i' && c == c' && m == m'
  {
    var h, h' := [1] + f + i + Len32(c) + Len32(c), [1] + f' + i' + Len32(c') + Len32(c');
    SplitEqual(h + c, m, h' + c', m');
    SplitEqual(h, c, h', c');
    SplitEqual([1] + f + i + Len32(c), Len32(c), [1] + f' + i' + Len32(c'), Len32(c'));
    SplitEqual([1] + f + i, Len32(c), [1] + f' + i', Len32(c'));
    SplitEqual([1] + f, i, [1] + f', i');
    SplitEqual([1], f, [1], f');
  }

  /** The encoding determines the message: the three kinds are disjoint and each is
      injective, for digests and secrets of any length. */
  lemma Framing(a: Message, b: Message)
    requires Encode(a) == Encode(b)
    ensures a == b
  {
    assert a.PolicyMessage? <==> |Encode(a)| == 4;
    assert b.PolicyMessage? <==> |Encode(b)| == 4;
    if a.MeasureMessage? {
      assert Encode(a)[0] == 4;
    } else if a.SecretMessage? {
      assert Encode(a)[0] == 1;
    }
    match (a, b)
    case (MeasureMessage(x, p, d, n), MeasureMessage(x', p', d', n')) => MeasureFraming(x, p, d, n, x', p', d', n');
    case (SecretMessage(f, i, c, m), SecretMessage(f', i', c', m')) => SecretFraming(f, i, c, m, f', i', c', m');
    case _ =>
  }

  /** What is authenticated as a measurement, by positions: the byte 4, build, policy, digest
      and, at the end, the firmware's nonce. */
  predicate IsMeasureInput(x: Bytes, build: Build, policy: Quad, digest: Bytes, mnonce: Block16) {
    && |x| == 24 + |digest|
    && x[0] == 4 && x[1..4] == build && x[4..8] == policy
    && x[8..|x| - 16] == digest && x[|x| - 16..] == mnonce
  }

  lemma MeasureInput(build: Build, policy: Quad, digest: Bytes, mnonce: Block16, x: Bytes)
    ensures IsMeasureInput(x, build, policy, digest, mnonce) <==>
              x == Encode(MeasureMessage(build, policy, digest, mnonce))
  {
    if IsMeasureInput(x, build, policy, digest, mnonce) {
      assert x == [4] + x[1..4] + x[4..8] + x[8..|x| - 16] + x[|x| - 16..];
    }
  }

  /** What is authenticated with a secret, by positions: the byte 1, flags, vector, the length
      twice, the ciphertext and, at the end, the measurement. */
  predicate IsSecretInput(x: Bytes, flags: Quad, iv: Block16, ct: Bytes, measure: Measure32) {
    && |x| == 61 + |ct|
    && x[0] == 1 && x[1..5] == flags && x[5..21] == iv
    && LeValue(x[21..25]) == |ct| % 0x1_0000_0000 && LeValue(x[25..29]) == |ct| % 0x1_0000_0000
    && x[29..29 + |ct|] == ct && x[29 + |ct|..] == measure
  }

  lemma SecretParts(f: Bytes, i: Bytes, a: Bytes, b: Bytes, c: Bytes, m: Bytes)
    requires |f| == 4 && |i| == 16 && |a| == 4 && |b| == 4
    ensures var x := [1] + f + i + a + b + c + m;
            && x[0] == 1 && x[1..5] == f && x[5..21] == i && x[21..25] == a && x[25..29] == b
            && x[29..29 + |c|] == c && x[29 + |c|..] == m
  {
    assert [1] + f + i + a + b + c + m == [1] + f + i + a + b + (c + m);
  }

  lemma SecretInput(flags: Quad, iv: Block16, ct: Bytes, measure: Measure32)
    ensures IsSecretInput(Encode(SecretMessage(flags, iv, ct, measure)), flags, iv, ct, measure)
  {
    SecretParts(flags, iv, Len32(ct), Len32(ct), ct, measure);
    Powers();
    LeValueOfBytes(|ct| % 0x1_0000_0000, 4);
  }

  /** ... and nothing else is. */
  lemma SecretInputOnly(x: Bytes, flags: Quad, iv: Block16, ct: Bytes, measure: Measure32)
    requires IsSecretInput(x, flags, iv, ct, measure)
    ensures x == Encode(SecretMessage(flags, iv, ct, measure))
  {
    LeBytesOfValue(x[21..25]);
    LeBytesOfValue(x[25..29]);
    assert x == [1] + x[1..5] + x[5..21] + x[21..25] + x[25..29] + x[29..29 + |ct|] + x[29 + |ct|..];
  }

  // ---------- the measurement ----------

  datatype Measurement = Measurement(measure: Measure32, mnonce: Block16)

  /** Whether the firmware's measurement is the one expected for a digest. */
  predicate Agrees(hmac: Hmac, s: Session, digest: Bytes, build: Build, msr: Measurement) {
    hmac(s.tik, Encode(MeasureMessage(build, s.policy, digest, msr.mnonce))) == msr.measure
  }

  /** The measurement is the HMAC, by the TIK, of the input above. */
  lemma AgreesExactly(hmac: Hmac, s: Session, digest: Bytes, build: Build, msr: Measurement)
    ensures Agrees(hmac, s, digest, build, msr) <==>
              exists x :: IsMeasureInput(x, build, s.policy, digest, msr.mnonce) && msr.measure == hmac(s.tik, x)
  {
    MeasureInput(build, s.policy, digest, msr.mnonce, Encode(MeasureMessage(build, s.policy, digest, msr.mnonce)));
    if x :| IsMeasureInput(x, build, s.policy, digest, msr.mnonce) && msr.measure == hmac(s.tik, x) {
      MeasureInput(build, s.policy, digest, msr.mnonce, x);
    }
  }

  /** `Session<Initialized>::verify`. */
  method VerifyDigest(hmac: Hmac, s: Session, digest: Bytes, build: Build, msr: Measurement)
      returns (r: Result<Measurement, KeyError>)
    ensures r == if Agrees(hmac, s, digest, build, msr) then Success(msr) else Failure(InvalidInput)
    ensures r.Success? <==>
              exists x :: IsMeasureInput(x, build, s.policy, digest, msr.mnonce) && msr.measure == hmac(s.tik, x)
  {
    AgreesExactly(hmac, s, digest, build, msr);
    var sig := new Signer(hmac, s.tik);
    sig.Update([0x04]);
    sig.Update(build);
    sig.Update(s.policy);
    sig.Update(digest);
    sig.Update(msr.mnonce);
    assert [] + [4] == [4];
    var mac := sig.Sign();
    if mac != msr.measure { return Failure(InvalidInput); }
    r := Success(msr);
  }

  function Concat(pieces: seq<Bytes>): Bytes
    decreases |pieces|
  {
    if pieces == [] then [] else Concat(pieces[..|pieces|-1]) + pieces[|pieces|-1]
  }

  /** `Session<Measuring>`: a session with a hasher that accumulates what is measured. */
  class Measuring {
    const session: Session
    const sha256: Bytes -> Measure32
    var hashed: Bytes
    ghost var pieces: seq<Bytes>

    ghost predicate Valid()
      reads this
    {
      hashed == Concat(pieces)
    }

    constructor (session: Session, sha256: Bytes -> Measure32)
      ensures Valid() && pieces == [] && this.session == session && this.sha256 == sha256
    {
      this.session, this.sha256 := session, sha256;
      hashed, pieces := [], [];
    }

    method UpdateData(data: Bytes)
      requires Valid()
      modifies this
      ensures Valid() && pieces == old(pieces) + [data]
    {
      hashed := hashed + data;
      pieces := pieces + [data];
      assert pieces[..|pieces|-1] == old(pieces);
    }

    /** Accepts exactly what the initialized session accepts for the digest of all pieces
        joined together. */
    method Verify(hmac: Hmac, build: Build, msr: Measurement) returns (r: Result<Measurement, KeyError>)
      requires Valid()
      ensures r == if Agrees(hmac, session, sha256(Concat(pieces)), build, msr) then Success(msr)
                   else Failure(InvalidInput)
      ensures r.Success? <==>
                exists x :: IsMeasureInput(x, build, session.policy, sha256(Concat(pieces)), msr.mnonce)
                  && msr.measure == hmac(session.tik, x)
    {
      r := VerifyDigest(hmac, session, sha256(hashed), build, msr);
    }
  }

  lemma ConcatSnoc(pieces: seq<Bytes>, last: Bytes)
    ensures Concat(pieces + [last]) == Concat(pieces) + last
  {
    assert (pieces + [last])[..|pieces|] == pieces;
  }

  lemma {:induction false} ConcatAppend(a: seq<Bytes>, b: seq<Bytes>)
    ensures Concat(a + b) == Concat(a) + Concat(b)
    decreases |b|
  {
    if b == [] {
      assert a + b == a;
    } else {
      var front, last := b[..|b|-1], b[|b|-1];
      assert b == front + [last];
      Assoc(a, front, [last]);
      ConcatAppend(a, front);
      ConcatSnoc(a + front, last);
      ConcatSnoc(front, last);
      Assoc(Concat(a), Concat(front), last);
    }
  }

  /** How the data is cut into updates does not matter. */
  lemma CutsIrrelevant(a: seq<Bytes>, x: Bytes, y: Bytes, b: seq<Bytes>)
    ensures Concat(a + [x, y] + b) == Concat(a + [x + y] + b)
  {
    ConcatAppend(a + [x, y], b);
    ConcatAppend(a, [x, y]);
    ConcatAppend(a + [x + y], b);
    ConcatAppend(a, [x + y]);
    assert [x, y][..1] == [x] && [x][..0] == [] && [x + y][..0] == [];
    assert Concat([x]) == x && Concat([x, y]) == x + y && Concat([x + y]) == x + y;
  }

  // ---------- secrets ----------

  datatype Secret = Secret(flags: Quad, iv: Block16, mac: Mac, ciphertext: Bytes)

  function SecretOf(hmac: Hmac, ctr: Keystream, s: Session, msr: Measurement, flags: Quad, iv: Block16, data: Bytes)
      : Secret
  {
    var ct := Crypt(data, ctr(s.tek, iv), 0);
    Secret(flags, iv, hmac(s.tik, Encode(SecretMessage(flags, iv, ct, msr.measure))), ct)
  }

  /** `Session<Verified>::secret`. */
  method PackSecret(hmac: Hmac, ctr: Keystream, s: Session, msr: Measurement, flags: Quad, iv: Block16, data: Bytes)
      returns (r: Secret)
    ensures r == SecretOf(hmac, ctr, s, msr, flags, iv, data)
  {
    var ciphertext := Crypt(data, ctr(s.tek, iv), 0);
    var sig := new Signer(hmac, s.tik);
    sig.Update([0x01]);
    sig.Update(flags);
    sig.Update(iv);
    sig.Update(Len32(data));
    sig.Update(Len32(ciphertext));
    sig.Update(ciphertext);
    sig.Update(msr.measure);
    assert [] + [1] == [1];
    r := Secret(flags, iv, sig.Sign(), ciphertext);
  }

  /** The packet in full. */
  lemma SecretExact(hmac: Hmac, ctr: Keystream, s: Session, msr: Measurement, flags: Quad, iv: Block16, data: Bytes)
    ensures var p := SecretOf(hmac, ctr, s, msr, flags, iv, data);
            && p.flags == flags && p.iv == iv && |p.ciphertext| == |data|
            && (forall i :: 0 <= i < |data| ==> p.ciphertext[i] == Xor(data[i], ctr(s.tek, iv)(i)))
            && exists x :: IsSecretInput(x, flags, iv, p.ciphertext, msr.measure) && p.mac == hmac(s.tik, x)
  {
    var p := SecretOf(hmac, ctr, s, msr, flags, iv, data);
    SecretInput(flags, iv, p.ciphertext, msr.measure);
  }

  /** The receiving side of LAUNCH_SECRET for a guest with a given measurement. */
  function Unpack(hmac: Hmac, ctr: Keystream, tek: Bytes, tik: Bytes, measure: Measure32, p: Secret): Option<Bytes> {
    if hmac(tik, Encode(SecretMessage(p.flags, p.iv, p.ciphertext, measure))) != p.mac then None
    else Some(Crypt(p.ciphertext, ctr(tek, p.iv), 0))
  }

  /** End to end: a receiver that took its keys from the opening reads back the secret. */
  lemma SecretArrives(hmac: Hmac, ctr: Keystream, s: Session, nonce: Block16, iv: Block16, z: Bytes,
                      msr: Measurement, flags: Quad, iv': Block16, data: Bytes)
    requires |s.tek| == 16 && |s.tik| == 16
    ensures var keys := Receive(hmac, ctr, s.policy, z, OpeningOf(hmac, ctr, s, nonce, iv, z));
            var packet := SecretOf(hmac, ctr, s, msr, flags, iv', data);
            && keys.Some?
            && Unpack(hmac, ctr, keys.value.0, keys.value.1, msr.measure, packet) == Some(data)
  {
    KeysArrive(hmac, ctr, s, nonce, iv, z);
    CryptTwice(data, ctr(s.tek, iv'), 0);
  }

  /** A packet accepted for a guest with another measurement is an HMAC collision. */
  lemma SecretBound(hmac: Hmac, ctr: Keystream, s: Session, msr: Measurement, flags: Quad, iv: Block16, data: Bytes,
                    measure: Measure32)
    requires Unpack(hmac, ctr, s.tek, s.tik, measure, SecretOf(hmac, ctr, s, msr, flags, iv, data)).Some?
    ensures var ct := Crypt(data, ctr(s.tek, iv), 0);
            var x, y := Encode(SecretMessage(flags, iv, ct, measure)), Encode(SecretMessage(flags, iv, ct, msr.measure));
            hmac(s.tik, x) == hmac(s.tik, y) && (measure != msr.measure ==> x != y)
  {
    var ct := Crypt(data, ctr(s.tek, iv), 0);
    if measure != msr.measure {
      var a, b := SecretMessage(flags, iv, ct, measure), SecretMessage(flags, iv, ct, msr.measure);
      if Encode(a) == Encode(b) { Framing(a, b); }
    }
  }

  /** The wrapping and integrity keys are derived from different messages. */
  lemma KeysSeparated()
    ensures forall i: U32, j: U32, c: Bytes, c': Bytes, n: U32, n': U32 ::
              KeyDerivation.Message(i, KEK, c, n) != KeyDerivation.Message(j, KIK, c', n')
  {
    forall i: U32, j: U32, c: Bytes, c': Bytes, n: U32, n': U32
      ensures KeyDerivation.Message(i, KEK, c, n) != KeyDerivation.Message(j, KIK, c', n')
    {
      if KeyDerivation.Message(i, KEK, c, n) == KeyDerivation.Message(j, KIK, c', n') {
        assert KEK[5] == 'e' as int && KIK[5] == 'i' as int;
        MessageInjective(i, KEK, c, n, j, KIK, c', n');
      }
    }
  }
}
