/** SEV platform certificates: two signature slots, signing in place and verifying.

    A key pair is a kind and a name.  Loading a public key and checking a signature are
    arbitrary functions; what OpenSSL returns when asked to sign is attached to the call. */
module SevCertificates {
  import opened ByteStrings
  import opened Outcomes
  import opened Integers

  datatype SevError = InvalidInput | OpenSsl | NotFound

  // ---------- usages, algorithms, keys ----------

  const ARK: U32 := 0x0000
  const ASK: U32 := 0x0013
  const INV: U32 := 0x1000
  const OCA: U32 := 0x1001
  const PEK: U32 := 0x1002
  const PDH: U32 := 0x1003
  const CEK: U32 := 0x1004

  predicate KnownUsage(usage: U32) {
    usage == OCA || usage == CEK || usage == PEK || usage == PDH || usage == ARK || usage == ASK
  }

  datatype KeyKind = RSA | EC
  datatype Digest = SHA256 | SHA384

  const NONE: U32 := 0x0000
  const RSA_SHA256: U32 := 0x0001
  const ECDSA_SHA256: U32 := 0x0002
  const ECDH_SHA256: U32 := 0x0003
  const RSA_SHA384: U32 := 0x0101
  const ECDSA_SHA384: U32 := 0x0102
  const ECDH_SHA384: U32 := 0x0103

  function KindOf(algo: U32): Option<KeyKind> {
    if algo == RSA_SHA256 || algo == RSA_SHA384 then Some(RSA)
    else if algo == ECDSA_SHA256 || algo == ECDSA_SHA384 then Some(EC)
    else if algo == ECDH_SHA256 || algo == ECDH_SHA384 then Some(EC)
    else None
  }

  function DigestOf(algo: U32): Option<Digest> {
    if algo == RSA_SHA256 || algo == ECDSA_SHA256 || algo == ECDH_SHA256 then Some(SHA256)
    else if algo == RSA_SHA384 || algo == ECDSA_SHA384 || algo == ECDH_SHA384 then Some(SHA384)
    else None
  }

  /** The algorithm a signature is stored under. */
  function SigAlgo(kind: KeyKind, digest: Digest): U32 {
    match (kind, digest)
    case (RSA, SHA256) => RSA_SHA256
    case (RSA, SHA384) => RSA_SHA384
    case (EC, SHA256) => ECDSA_SHA256
    case (EC, SHA384) => ECDSA_SHA384
  }

  predicate SignatureAlgo(algo: U32) {
    algo == RSA_SHA256 || algo == RSA_SHA384 || algo == ECDSA_SHA256 || algo == ECDSA_SHA384
  }

  datatype KeyPair = KeyPair(kind: KeyKind, name: int)

  type Id = s: Bytes | |s| == 16 witness Zeros(16)

  datatype PublicKey = PublicKey(id: Option<Id>, key: KeyPair, digest: Digest, usage: U32)
  datatype PrivateKey = PrivateKey(id: Option<Id>, key: KeyPair, digest: Digest, usage: U32)

  // ---------- signatures ----------

  const SIG_SIZE := 512

  type SigData = s: Bytes | |s| == SIG_SIZE witness Zeros(SIG_SIZE)

  /** A signature as OpenSSL produces it: the two numbers of ECDSA, or the bytes of RSA. */
  datatype Payload = EcdsaSig(r: nat, s: nat) | RsaSig(bytes: Bytes)

  datatype Signature = Signature(id: Option<Id>, payload: Payload, kind: KeyKind, digest: Digest, usage: U32)

  /** A slot of a certificate. */
  datatype Slot = Slot(usage: U32, algo: U32, data: SigData) {
    predicate IsEmpty() { !KnownUsage(usage) || !SignatureAlgo(algo) }
  }

  const DEFAULT_SLOT := Slot(INV, NONE, Zeros(SIG_SIZE))

  /** The payload has the form its key produces and fits the slot; the conversion panics on
      larger numbers. */
  predicate Storable(kind: KeyKind, p: Payload) {
    match p
    case EcdsaSig(r, s) => kind.EC? && r < Pow256(FIELD) && s < Pow256(FIELD)
    case RsaSig(bytes) => kind.RSA? && |bytes| <= SIG_SIZE
  }

  lemma {:induction false} FromBigEndianBound(s: Bytes)
    ensures FromBigEndian(s) < Pow256(|s|)
  {
    if s != [] { FromBigEndianBound(s[..|s|-1]); }
  }

  function DataOf(kind: KeyKind, p: Payload): SigData
    requires Storable(kind, p)
  {
    match p
    case EcdsaSig(r, s) => LeBytes(r, FIELD) + LeBytes(s, FIELD) + Zeros(SIG_SIZE - 2 * FIELD)
    case RsaSig(bytes) => LeBytes(FromBigEndian(bytes), SIG_SIZE)
  }

  function PayloadOf(kind: KeyKind, data: SigData): Payload {
    match kind
    case EC => EcdsaSig(FromLe(data[..FIELD]), FromLe(data[FIELD..2 * FIELD]))
    case RSA => RsaSig(BigEndian(FromLe(data)))
  }

  /** `sig::Signature::try_from`. */
  function Store(sig: Signature): Result<Slot, SevError>
    requires Storable(sig.kind, sig.payload)
  {
    if sig.id.Some? then Failure(InvalidInput)
    else Success(Slot(sig.usage, SigAlgo(sig.kind, sig.digest), DataOf(sig.kind, sig.payload)))
  }

  /** The signature in a slot, if it is not empty. */
  function Load(slot: Slot): Result<Option<Signature>, SevError> {
    if slot.IsEmpty() then Success(None)
    else
      match (DigestOf(slot.algo), KindOf(slot.algo))
      case (Some(digest), Some(kind)) =>
        Success(Some(Signature(None, PayloadOf(kind, slot.data), kind, digest, slot.usage)))
      case _ => Failure(InvalidInput)
  }

  lemma LoadSucceeds(slot: Slot)
    ensures Load(slot).Success?
  {
  }

  /** Whether a payload survives being stored: RSA signatures lose their leading zeros. */
  predicate Survives(p: Payload) {
    p.EcdsaSig? || p.bytes == [] || p.bytes[0] != 0
  }

  lemma {:induction false} BigEndianOf(s: Bytes)
    ensures s != [] && s[0] != 0 ==> FromBigEndian(s) > 0
    ensures s == [] || s[0] != 0 ==> BigEndian(FromBigEndian(s)) == s
  {
    if s != [] {
      var front := s[..|s|-1];
      BigEndianOf(front);
      assert s == front + [s[|s|-1]];
      assert FromBigEndian(s) / 256 == FromBigEndian(front) && FromBigEndian(s) % 256 == s[|s|-1];
      if |s| > 1 { assert front[0] == s[0]; }
    }
  }

  lemma {:induction false} NoLeadingZero(n: nat)
    ensures BigEndian(n) == [] || BigEndian(n)[0] != 0
  {
    if n > 0 { NoLeadingZero(n / 256); }
  }

  /** A stored signature reads back as itself exactly when it has no leading zero byte. */
  lemma StoredPayload(kind: KeyKind, p: Payload)
    requires Storable(kind, p)
    ensures PayloadOf(kind, DataOf(kind, p)) == p <==> Survives(p)
  {
    match p
    case EcdsaSig(r, s) =>
      var data := DataOf(kind, p);
      assert data[..FIELD] == LeBytes(r, FIELD) && data[FIELD..2 * FIELD] == LeBytes(s, FIELD);
      BigNumRoundTrip(r, FIELD, LeBytes(r, FIELD));
      BigNumRoundTrip(s, FIELD, LeBytes(s, FIELD));
    case RsaSig(bytes) =>
      var n := FromBigEndian(bytes);
      FromBigEndianBound(bytes);
      PowMonotone(|bytes|, SIG_SIZE);
      BigNumRoundTrip(n, SIG_SIZE, LeBytes(n, SIG_SIZE));
      NoLeadingZero(n);
      BigEndianOf(bytes);
  }

  lemma {:induction false} ZeroFirst(s: Bytes)
    ensures FromBigEndian([0] + s) == FromBigEndian(s)
  {
    if s == [] {
      assert [0] + s == [0] && [0][..0] == [];
    } else {
      ZeroFirst(s[..|s|-1]);
      assert ([0] + s)[..|s|] == [0] + s[..|s|-1];
    }
  }

  /** What is lost is the zero: such a signature is stored like the shorter one. */
  lemma LostZero(bytes: Bytes)
    requires |bytes| < SIG_SIZE
    ensures DataOf(RSA, RsaSig([0] + bytes)) == DataOf(RSA, RsaSig(bytes)) && !Survives(RsaSig([0] + bytes))
  {
    ZeroFirst(bytes);
  }

  // ---------- certificates ----------

  type KeyData = s: Bytes | |s| == 1028 witness Zeros(1028)
  type Quad = s: Bytes | |s| == 4 witness Zeros(4)

  /** The signed part: version, firmware version with two reserved bytes, usage, algorithm
      and public key. */
  datatype Body = Body(version: U32, firmware: Quad, usage: U32, algo: U32, key: KeyData)

  datatype Cert = Cert(body: Body, sig0: Slot, sig1: Slot) {
    function EmptySlots(): nat {
      (if sig0.IsEmpty() then 1 else 0) + (if sig1.IsEmpty() then 1 else 0)
    }
  }

  function EncodeBody(b: Body): (s: Bytes)
    ensures |s| == 1044
  {
    LeBytes(b.version, 4) + b.firmware + LeBytes(b.usage, 4) + LeBytes(b.algo, 4) + b.key
  }

  /** Reading a public key of a kind, and checking a signature of a message by a key. */
  datatype Crypto = Crypto(load: (KeyKind, KeyData) -> Option<int>, check: (KeyPair, Digest, Bytes, Payload) -> bool)

  function PublicKeyOf(c: Crypto, cert: Cert): Result<PublicKey, SevError> {
    var b := cert.body;
    if b.version != 1 then Failure(InvalidInput)
    else
      match (DigestOf(b.algo), KindOf(b.algo))
      case (Some(digest), Some(kind)) =>
        (match c.load(kind, b.key)
         case Some(name) => Success(PublicKey(None, KeyPair(kind, name), digest, b.usage))
         case None => Failure(OpenSsl))
      case _ => Failure(InvalidInput)
  }

  /** The signature says it is by this key. */
  predicate Fits(key: PublicKey, sig: Signature) {
    && sig.usage == key.usage && sig.kind == key.key.kind && sig.digest == key.digest
    && (sig.id.None? || sig.id == key.id)
  }

  /** `PublicKey::verify`: usage, kind, digest and identity must agree before the signature is
      looked at. */
  function KeyResult(c: Crypto, key: PublicKey, message: Bytes, sig: Signature): Result<(), SevError> {
    if !Fits(key, sig) then Failure(InvalidInput)
    else if c.check(key.key, sig.digest, message, sig.payload) then Success(())
    else Failure(NotFound)
  }

  predicate KeyVerify(c: Crypto, key: PublicKey, message: Bytes, sig: Signature) {
    KeyResult(c, key, message, sig).Success?
  }

  predicate SlotVerifies(c: Crypto, key: PublicKey, body: Body, slot: Slot) {
    match Load(slot)
    case Success(Some(sig)) => KeyVerify(c, key, EncodeBody(body), sig)
    case _ => false
  }

  /** One of the two slots holds a signature of the body by the key. */
  predicate EitherSlot(c: Crypto, key: PublicKey, target: Cert) {
    SlotVerifies(c, key, target.body, target.sig0) || SlotVerifies(c, key, target.body, target.sig1)
  }

  predicate Verifies(c: Crypto, signer: Cert, target: Cert) {
    && PublicKeyOf(c, signer).Success? && target.body.version == 1
    && EitherSlot(c, PublicKeyOf(c, signer).value, target)
  }

  /** The outcome for a pair of platform certificates; why a slot fails is not told. */
  function VerifyResult(c: Crypto, signer: Cert, target: Cert): Result<(), SevError> {
    var _ :- PublicKeyOf(c, signer);
    if Verifies(c, signer, target) then Success(()) else Failure(InvalidInput)
  }

  /** The loop over the slots, with early return. */
  method VerifySlots(c: Crypto, key: PublicKey, target: Cert) returns (r: Result<(), SevError>)
    ensures r == if target.body.version == 1 && EitherSlot(c, key, target) then Success(()) else Failure(InvalidInput)
  {
    if target.body.version != 1 { return Failure(InvalidInput); }
    var slots := [target.sig0, target.sig1];
    for i := 0 to 2
      invariant forall k :: 0 <= k < i ==> !SlotVerifies(c, key, target.body, slots[k])
    {
      LoadSucceeds(slots[i]);
      var sig := Load(slots[i]).value;
      if sig.Some? && KeyVerify(c, key, EncodeBody(target.body), sig.value) {
        return Success(());
      }
    }
    assert !SlotVerifies(c, key, target.body, slots[0]);
    assert !SlotVerifies(c, key, target.body, slots[1]);
    r := Failure(InvalidInput);
  }

  /** `Verifiable` for a pair of platform certificates. */
  method Verify(c: Crypto, signer: Cert, target: Cert) returns (r: Result<(), SevError>)
    ensures r == VerifyResult(c, signer, target)
    ensures r.Success? <==> Verifies(c, signer, target)
  {
    var key := PublicKeyOf(c, signer);
    if key.Failure? { return Failure(key.error); }
    r := VerifySlots(c, key.value, target);
  }

  // ---------- what verification comes to, in numbers and bytes ----------

  /** The kind and digest of a key by the number of its algorithm. */
  function NumberKind(algo: U32): KeyKind { if algo == 0x1 || algo == 0x101 then RSA else EC }
  function NumberDigest(algo: U32): Digest { if algo < 0x100 then SHA256 else SHA384 }

  /** An RSA payload is the little-endian data as a byte string, turned around and without
      leading zeros; an ECDSA payload is two numbers of 72 bytes each. */
  ghost predicate Reads(kind: KeyKind, data: SigData, p: Payload) {
    match kind
    case EC => p == EcdsaSig(LeValue(data[0..72]), LeValue(data[72..144]))
    case RSA => p.RsaSig? && (p.bytes == [] || p.bytes[0] != 0) && LeValue(Reverse(p.bytes)) == LeValue(data)
  }

  lemma {:induction false} ReverseTwice(s: Bytes)
    ensures Reverse(Reverse(s)) == s
  {
  }

  lemma PayloadReads(kind: KeyKind, data: SigData)
    ensures Reads(kind, data, PayloadOf(kind, data))
  {
    FromLeIsLeValue(data[0..72]);
    FromLeIsLeValue(data[72..144]);
    FromLeIsLeValue(data);
    var n := FromLe(data);
    NoLeadingZero(n);
    BigEndianValue(n);
    ReverseTwice(BigEndian(n));
    FromLeIsLeValue(Reverse(BigEndian(n)));
  }

  lemma {:induction false} BigEndianValue(n: nat)
    ensures FromBigEndian(BigEndian(n)) == n
  {
    if n > 0 {
      BigEndianValue(n / 256);
      assert BigEndian(n)[..|BigEndian(n)| - 1] == BigEndian(n / 256);
    }
  }

  /** A byte string without leading zeros is known from its value. */
  lemma ReadsOne(kind: KeyKind, data: SigData, p: Payload, q: Payload)
    requires Reads(kind, data, p) && Reads(kind, data, q)
    ensures p == q
  {
    if kind.RSA? {
      BigEndianOf(p.bytes);
      BigEndianOf(q.bytes);
      ReverseTwice(p.bytes);
      ReverseTwice(q.bytes);
      FromLeIsLeValue(Reverse(p.bytes));
      FromLeIsLeValue(Reverse(q.bytes));
    }
  }

  /** A public key is read from a version 1 certificate with one of six algorithms. */
  lemma KeyExact(c: Crypto, cert: Cert)
    ensures var b := cert.body;
            var kind := NumberKind(b.algo);
            PublicKeyOf(c, cert) ==
              if b.version != 1 || b.algo !in {0x1, 0x2, 0x3, 0x101, 0x102, 0x103} then Failure(InvalidInput)
              else if c.load(kind, b.key).None? then Failure(OpenSsl)
              else Success(PublicKey(None, KeyPair(kind, c.load(kind, b.key).value), NumberDigest(b.algo), b.usage))
  {
  }

  /** The slot carries the usage and the algorithm of the key, and its data checks, by that
      key and digest, as a signature of the version, firmware, usage, algorithm and public key
      of the target. */
  ghost predicate Signs(c: Crypto, key: PublicKey, target: Body, slot: Slot) {
    && slot.usage == key.usage && slot.usage in {0x1001, 0x1002, 0x1003, 0x1004, 0x0, 0x13}
    && slot.algo == (if key.key.kind.RSA? then 1 else 2) + (if key.digest.SHA256? then 0 else 0x100)
    && exists p :: Reads(key.key.kind, slot.data, p) && c.check(key.key, key.digest, EncodeBody(target), p)
  }

  /** What is signed: the fields of the body at their offsets. */
  lemma SignedBytes(b: Body)
    ensures var x := EncodeBody(b);
            x[4..8] == b.firmware && x[16..1044] == b.key
            && LeValue(x[0..4]) == b.version && LeValue(x[8..12]) == b.usage && LeValue(x[12..16]) == b.algo
  {
    Quarters(LeBytes(b.version, 4), b.firmware, LeBytes(b.usage, 4), LeBytes(b.algo, 4), b.key);
    Powers();
    LeValueOfBytes(b.version, 4);
    LeValueOfBytes(b.usage, 4);
    LeValueOfBytes(b.algo, 4);
  }

  /** A signature from a slot has no identity, so the identity of the key does not matter. */
  lemma SlotSigns(c: Crypto, key: PublicKey, target: Body, slot: Slot)
    ensures SlotVerifies(c, key, target, slot) <==> Signs(c, key, target, slot)
  {
    var kind := key.key.kind;
    PayloadReads(kind, slot.data);
    if Signs(c, key, target, slot) {
      var p :| Reads(kind, slot.data, p) && c.check(key.key, key.digest, EncodeBody(target), p);
      ReadsOne(kind, slot.data, p, PayloadOf(kind, slot.data));
    }
  }

  /** One of the two slots of a version 1 target holds a signature by the key that checks. */
  ghost predicate SignedBy(c: Crypto, key: PublicKey, target: Cert) {
    && target.body.version == 1
    && (Signs(c, key, target.body, target.sig0) || Signs(c, key, target.body, target.sig1))
  }

  /** Verification accepts exactly the targets signed by the signer's key, if it can be read. */
  lemma VerifiesExactly(c: Crypto, signer: Cert, target: Cert)
    ensures Verifies(c, signer, target) <==>
              PublicKeyOf(c, signer).Success? && SignedBy(c, PublicKeyOf(c, signer).value, target)
  {
    if PublicKeyOf(c, signer).Success? {
      SlotSigns(c, PublicKeyOf(c, signer).value, target.body, target.sig0);
      SlotSigns(c, PublicKeyOf(c, signer).value, target.body, target.sig1);
    }
  }

  // ---------- signing ----------

  /** A signature request: the key, and what OpenSSL returns for it. */
  datatype Request = Request(key: PrivateKey, outcome: Option<Payload>) {
    predicate Valid() { outcome.Some? ==> Storable(key.key.kind, outcome.value) }

    /** What OpenSSL returns is a signature that checks, and it will survive being stored. */
    predicate Honest(c: Crypto, body: Body) {
      && Valid()
      && (outcome.Some? ==>
            c.check(key.key, key.digest, EncodeBody(body), outcome.value) && Survives(outcome.value))
    }
  }

  /** The certificate after a request, or the error. */
  function Signed(cert: Cert, q: Request): Result<Cert, SevError>
    requires q.Valid()
  {
    if cert.body.version != 1 then Failure(InvalidInput)
    else if cert.EmptySlots() == 0 then Failure(InvalidInput)
    else
      match q.outcome
      case None => Failure(OpenSsl)
      case Some(payload) =>
        var slot :- Store(Signature(q.key.id, payload, q.key.key.kind, q.key.digest, q.key.usage));
        Success(if cert.sig0.IsEmpty() then cert.(sig0 := slot) else cert.(sig1 := slot))
  }

  /** The certificate as an object whose slots are overwritten. */
  class Certificate {
    const body: Body
    const sigs: array<Slot>

    predicate Valid() { sigs.Length == 2 }

    function View(): Cert
      requires Valid()
      reads sigs
    {
      Cert(body, sigs[0], sigs[1])
    }

    constructor (body: Body)
      ensures Valid() && fresh(sigs) && View() == Cert(body, DEFAULT_SLOT, DEFAULT_SLOT)
    {
      this.body := body;
      this.sigs := new Slot[] [DEFAULT_SLOT, DEFAULT_SLOT];
    }

    method Sign(q: Request) returns (r: Result<(), SevError>)
      requires Valid() && q.Valid()
      modifies sigs
      ensures match old(Signed(View(), q))
              case Failure(e) => r == Failure(e) && View() == old(View())
              case Success(cert) => r == Success(()) && View() == cert
    {
      if body.version != 1 { return Failure(InvalidInput); }
      var slot;
      if sigs[0].IsEmpty() {
        slot := 0;
      } else if sigs[1].IsEmpty() {
        slot := 1;
      } else {
        return Failure(InvalidInput);
      }
      if q.outcome.None? { return Failure(OpenSsl); }
      var sig := Signature(q.key.id, q.outcome.value, q.key.key.kind, q.key.digest, q.key.usage);
      var stored := Store(sig);
      if stored.Failure? { return Failure(stored.error); }
      sigs[slot] := stored.value;
      r := Success(());
    }
  }

  // ---------- one signature ----------

  /** The certificate carries the public half of the private key. */
  predicate Matches(c: Crypto, cert: Cert, k: PrivateKey) {
    PublicKeyOf(c, cert) == Success(PublicKey(None, k.key, k.digest, k.usage))
  }

  /** A signature by a known usage that survives storage is loaded as it was stored. */
  lemma StoredLoads(sig: Signature)
    requires Storable(sig.kind, sig.payload) && Survives(sig.payload) && sig.id.None? && KnownUsage(sig.usage)
    ensures Load(Store(sig).value) == Success(Some(sig))
  {
    StoredPayload(sig.kind, sig.payload);
    AlgoRoundTrip(sig.kind, sig.digest);
  }

  lemma AlgoRoundTrip(kind: KeyKind, digest: Digest)
    ensures var algo := SigAlgo(kind, digest);
            SignatureAlgo(algo) && KindOf(algo) == Some(kind) && DigestOf(algo) == Some(digest)
  {
  }

  lemma StoredVerifies(c: Crypto, body: Body, q: Request)
    requires q.outcome.Some? && q.key.id.None? && q.Honest(c, body) && KnownUsage(q.key.usage)
    ensures var sig := Signature(q.key.id, q.outcome.value, q.key.key.kind, q.key.digest, q.key.usage);
            SlotVerifies(c, PublicKey(None, q.key.key, q.key.digest, q.key.usage), body, Store(sig).value)
  {
    var sig := Signature(q.key.id, q.outcome.value, q.key.key.kind, q.key.digest, q.key.usage);
    StoredLoads(sig);
  }

  /** A successful signature makes the signer and target verify. */
  lemma SignVerifies(c: Crypto, cert: Cert, q: Request, signer: Cert)
    requires q.Honest(c, cert.body) && Signed(cert, q).Success?
    requires Matches(c, signer, q.key) && KnownUsage(q.key.usage)
    ensures Verifies(c, signer, Signed(cert, q).value)
  {
    StoredVerifies(c, cert.body, q);
  }

  /** It keeps the body and every signer that verified before, whoever that was. */
  lemma SignKeeps(c: Crypto, cert: Cert, q: Request, signer: Cert)
    requires q.Valid() && Signed(cert, q).Success?
    ensures Signed(cert, q).value.body == cert.body
    ensures Verifies(c, signer, cert) ==> Verifies(c, signer, Signed(cert, q).value)
  {
  }

  /** It succeeds exactly when a slot is empty, OpenSSL answers and the key has no identity;
      and it fills a slot exactly when its usage is one of the known ones. */
  lemma SignSucceeds(cert: Cert, q: Request)
    requires q.Valid()
    ensures Signed(cert, q).Success? <==>
              cert.body.version == 1 && cert.EmptySlots() > 0 && q.outcome.Some? && q.key.id.None?
    ensures Signed(cert, q).Success? ==>
              Signed(cert, q).value.EmptySlots() == cert.EmptySlots() - (if KnownUsage(q.key.usage) then 1 else 0)
  {
  }

  /** A slot is taken when its usage and its algorithm are known by number. */
  predicate Taken(slot: Slot) {
    slot.usage in {0x1001, 0x1002, 0x1003, 0x1004, 0x0, 0x13} && slot.algo in {0x1, 0x2, 0x101, 0x102}
  }

  /** The data of a stored signature: ECDSA numbers in the first two 72-byte fields, RSA bytes
      from the last one backwards; zeros behind. */
  ghost predicate Stored(p: Payload, data: SigData) {
    match p
    case EcdsaSig(r, s) =>
      LeValue(data[0..72]) == r && LeValue(data[72..144]) == s && data[144..512] == Zeros(368)
    case RsaSig(bytes) =>
      && |bytes| <= 512
      && (forall i :: 0 <= i < |bytes| ==> data[i] == bytes[|bytes| - 1 - i])
      && (forall i :: |bytes| <= i < 512 ==> data[i] == 0)
  }

  lemma DataStored(kind: KeyKind, p: Payload)
    requires Storable(kind, p)
    ensures Stored(p, DataOf(kind, p))
  {
    match p
    case EcdsaSig(r, s) =>
      EcFields(LeBytes(r, FIELD), LeBytes(s, FIELD), DataOf(kind, p));
      LeValueOfBytes(r, FIELD);
      LeValueOfBytes(s, FIELD);
    case RsaSig(bytes) =>
      FromLeIsLeValue(Reverse(bytes));
      ReverseTwice(bytes);
      LeBytesPadded(Reverse(bytes), SIG_SIZE);
  }

  lemma EcFields(a: Bytes, b: Bytes, data: Bytes)
    requires |a| == 72 && |b| == 72 && data == a + b + Zeros(368)
    ensures data[0..72] == a && data[72..144] == b && data[144..512] == Zeros(368)
  {
  }

  lemma {:induction false} LeBytesPadded(s: Bytes, size: nat)
    requires |s| <= size
    ensures LeBytes(LeValue(s), size) == s + Zeros(size - |s|)
  {
    if s != [] {
      LeBytesPadded(s[1..], size - 1);
      assert LeValue(s) / 256 == LeValue(s[1..]) && LeValue(s) % 256 == s[0];
      assert s + Zeros(size - |s|) == [s[0]] + (s[1..] + Zeros(size - |s|));
    } else if size > 0 {
      LeBytesPadded([], size - 1);
      assert Zeros(size) == [0] + Zeros(size - 1);
      assert s + Zeros(size) == Zeros(size) && s + Zeros(size - 1) == Zeros(size - 1);
    }
  }

  /** What a signature writes: the first slot that is not taken, and nothing else. */
  lemma SignedExact(cert: Cert, q: Request)
    requires q.Valid()
    ensures match Signed(cert, q)
            case Failure(OpenSsl) =>
              cert.body.version == 1 && !(Taken(cert.sig0) && Taken(cert.sig1)) && q.outcome.None?
            case Failure(InvalidInput) =>
              || cert.body.version != 1 || (Taken(cert.sig0) && Taken(cert.sig1))
              || (q.outcome.Some? && q.key.id.Some?)
            case Success(after) =>
              var slot := if Taken(cert.sig0) then after.sig1 else after.sig0;
              && after.body == cert.body
              && (if Taken(cert.sig0) then after.sig0 == cert.sig0 else after.sig1 == cert.sig1)
              && slot.usage == q.key.usage
              && slot.algo == (if q.key.key.kind.RSA? then 1 else 2) + (if q.key.digest.SHA256? then 0 else 0x100)
              && Stored(q.outcome.value, slot.data)
  {
    if q.outcome.Some? { DataStored(q.key.key.kind, q.outcome.value); }
  }

  // ---------- any sequence of signatures ----------

  /** Requests made one after another; a refused one changes nothing. */
  function SignAll(cert: Cert, qs: seq<Request>): Cert
    requires forall q :: q in qs ==> q.Valid()
    decreases |qs|
  {
    if qs == [] then cert
    else
      var front := SignAll(cert, qs[..|qs|-1]);
      var last := Signed(front, qs[|qs|-1]);
      if last.Success? then last.value else front
  }

  predicate Accepted(cert: Cert, qs: seq<Request>, i: nat)
    requires i < |qs| && forall q :: q in qs ==> q.Valid()
  {
    Signed(SignAll(cert, qs[..i]), qs[i]).Success?
  }

  lemma {:induction false} BodyKept(cert: Cert, qs: seq<Request>)
    requires forall q :: q in qs ==> q.Valid()
    ensures SignAll(cert, qs).body == cert.body
    decreases |qs|
  {
    if qs != [] { BodyKept(cert, qs[..|qs|-1]); }
  }

  lemma {:induction false} VerifiedStays(c: Crypto, cert: Cert, qs: seq<Request>, i: nat, signer: Cert)
    requires i <= |qs| && forall q :: q in qs ==> q.Valid()
    requires Verifies(c, signer, SignAll(cert, qs[..i]))
    ensures Verifies(c, signer, SignAll(cert, qs))
    decreases |qs|
  {
    if i == |qs| {
      assert qs[..i] == qs;
    } else {
      var front := qs[..|qs|-1];
      assert front[..i] == qs[..i];
      VerifiedStays(c, cert, front, i, signer);
      if Signed(SignAll(cert, front), qs[|qs|-1]).Success? {
        SignKeeps(c, SignAll(cert, front), qs[|qs|-1], signer);
      }
    }
  }

  /** Every accepted signer verifies at the end, whatever was requested in between. */
  lemma EverySigner(c: Crypto, cert: Cert, qs: seq<Request>, i: nat, signer: Cert)
    requires i < |qs| && forall q :: q in qs ==> q.Valid()
    requires Accepted(cert, qs, i) && qs[i].Honest(c, cert.body)
    requires Matches(c, signer, qs[i].key) && KnownUsage(qs[i].key.usage)
    ensures Verifies(c, signer, SignAll(cert, qs)) && SignAll(cert, qs).body == cert.body
  {
    BodyKept(cert, qs[..i]);
    BodyKept(cert, qs);
    SignVerifies(c, SignAll(cert, qs[..i]), qs[i], signer);
    assert qs[..i + 1][..i] == qs[..i];
    VerifiedStays(c, cert, qs, i + 1, signer);
  }

  /** A key made by `PubKey::generate`. */
  predicate Generated(k: PrivateKey) {
    && k.id.None? && k.key.kind.EC? && k.digest.SHA256?
    && (k.usage == OCA || k.usage == PEK || k.usage == CEK || k.usage == PDH)
  }

  ghost predicate AllAnswered(qs: seq<Request>) {
    forall q :: q in qs ==> q.Valid() && q.outcome.Some? && Generated(q.key)
  }

  /** Requests by generated keys are accepted exactly while slots last. */
  lemma {:induction false} SlotsLast(cert: Cert, qs: seq<Request>, i: nat)
    requires cert.body.version == 1 && AllAnswered(qs) && i < |qs|
    ensures Accepted(cert, qs, i) <==> i < cert.EmptySlots()
  {
    SlotsLeft(cert, qs[..i]);
    SignSucceeds(SignAll(cert, qs[..i]), qs[i]);
  }

  lemma {:induction false} SlotsLeft(cert: Cert, qs: seq<Request>)
    requires cert.body.version == 1 && AllAnswered(qs)
    ensures SignAll(cert, qs).body == cert.body
    ensures SignAll(cert, qs).EmptySlots() ==
            if |qs| < cert.EmptySlots() then cert.EmptySlots() - |qs| else 0
    decreases |qs|
  {
    if qs != [] {
      SlotsLeft(cert, qs[..|qs|-1]);
      SignSucceeds(SignAll(cert, qs[..|qs|-1]), qs[|qs|-1]);
    }
  }

  // ---------- generation and the platform chain ----------

  function GeneratedAlgo(usage: U32): Option<U32> {
    if usage == OCA || usage == PEK || usage == CEK then Some(ECDSA_SHA256)
    else if usage == PDH then Some(ECDH_SHA256)
    else None
  }

  /** `Certificate::generate`, for a key pair OpenSSL made and its public encoding. */
  function Generate(usage: U32, name: int, key: KeyData): Result<(Cert, PrivateKey), SevError> {
    match GeneratedAlgo(usage)
    case None => Failure(InvalidInput)
    case Some(algo) =>
      Success((Cert(Body(1, Zeros(4), usage, algo, key), DEFAULT_SLOT, DEFAULT_SLOT),
               PrivateKey(None, KeyPair(EC, name), SHA256, usage)))
  }

  /** A generated pair belongs together and has two empty slots. */
  lemma GeneratedMatches(c: Crypto, usage: U32, name: int, key: KeyData)
    requires c.load(EC, key) == Some(name)
    ensures match Generate(usage, name, key)
            case Failure(_) => usage != OCA && usage != PEK && usage != CEK && usage != PDH
            case Success(made) => Matches(c, made.0, made.1) && Generated(made.1) && made.0.EmptySlots() == 2
  {
  }

  /** What is generated, by number: a version 1 certificate for ECDSA, or ECDH in the case of
      the PDH, whose slots have the invalid usage. */
  lemma GeneratedExact(usage: U32, name: int, key: KeyData)
    ensures match Generate(usage, name, key)
            case Failure(e) => e == InvalidInput && usage !in {0x1001, 0x1002, 0x1003, 0x1004}
            case Success(made) =>
              && usage in {0x1001, 0x1002, 0x1003, 0x1004}
              && made.0.body == Body(1, [0, 0, 0, 0], usage, if usage == 0x1003 then 3 else 2, key)
              && made.0.sig0 == made.0.sig1 == Slot(0x1000, 0, Zeros(512))
              && made.1 == PrivateKey(None, KeyPair(EC, name), SHA256, usage)
  {
    assert Zeros(4) == [0, 0, 0, 0];
  }

  datatype Chain = Chain(pdh: Cert, pek: Cert, oca: Cert, cek: Cert)

  /** `sev::Chain::verify`. */
  predicate ChainVerifies(c: Crypto, chain: Chain) {
    && Verifies(c, chain.oca, chain.oca)
    && Verifies(c, chain.oca, chain.pek)
    && Verifies(c, chain.cek, chain.pek)
    && Verifies(c, chain.pek, chain.pdh)
  }

  predicate Fresh(c: Crypto, cert: Cert, k: PrivateKey) {
    Matches(c, cert, k) && Generated(k) && cert.EmptySlots() == 2
  }

  /** A request for this key on this body that OpenSSL answered. */
  predicate Answered(c: Crypto, q: Request, k: PrivateKey, body: Body) {
    q.key == k && q.outcome.Some? && q.Honest(c, body)
  }

  lemma SelfAndOther(c: Crypto, cert: Cert, q: Request, signer: Cert, k: PrivateKey)
    requires Fresh(c, cert, k) && Matches(c, signer, q.key) && Generated(q.key)
    requires q.outcome.Some? && q.Honest(c, cert.body)
    ensures Signed(cert, q).Success? && Matches(c, Signed(cert, q).value, k)
    ensures Verifies(c, signer, Signed(cert, q).value)
  {
    SignSucceeds(cert, q);
    SignVerifies(c, cert, q, signer);
  }

  /** Verification depends on the signer's body only, so signing a certificate does not
      disturb what it has signed. */
  lemma SameSigner(c: Crypto, signer: Cert, signer': Cert, target: Cert)
    requires signer.body == signer'.body
    ensures Verifies(c, signer, target) == Verifies(c, signer', target)
  {
  }

  lemma TwoAccepted(cert: Cert, first: Request, second: Request)
    requires cert.body.version == 1 && cert.EmptySlots() == 2 && AllAnswered([first, second])
    ensures Accepted(cert, [first, second], 0) && Accepted(cert, [first, second], 1)
  {
    SlotsLast(cert, [first, second], 0);
    SlotsLast(cert, [first, second], 1);
  }

  lemma SignerOf(c: Crypto, cert: Cert, qs: seq<Request>, i: nat, q: Request, signer: Cert)
    requires i < |qs| && qs[i] == q && (forall x :: x in qs ==> x.Valid()) && Accepted(cert, qs, i)
    requires Matches(c, signer, q.key) && Answered(c, q, q.key, cert.body) && Generated(q.key)
    ensures Verifies(c, signer, SignAll(cert, qs)) && SignAll(cert, qs).body == cert.body
  {
    EverySigner(c, cert, qs, i, signer);
  }

  /** Two requests by generated keys on a fresh certificate are both accepted and both signers
      verify. */
  lemma BothSigned(c: Crypto, cert: Cert, first: Request, second: Request, a: Cert, b: Cert)
    requires cert.body.version == 1 && cert.EmptySlots() == 2
    requires Matches(c, a, first.key) && Answered(c, first, first.key, cert.body) && Generated(first.key)
    requires Matches(c, b, second.key) && Answered(c, second, second.key, cert.body) && Generated(second.key)
    ensures var signed := SignAll(cert, [first, second]);
            signed.body == cert.body && Verifies(c, a, signed) && Verifies(c, b, signed)
  {
    var qs := [first, second];
    TwoAccepted(cert, first, second);
    SignerOf(c, cert, qs, 0, first, a);
    SignerOf(c, cert, qs, 1, second, b);
  }

  /** A chain signed by freshly generated keys verifies, whichever of OCA and CEK signs the
      PEK first. */
  lemma EitherOrder(c: Crypto, chain: Chain, ko: PrivateKey, kc: PrivateKey, kp: PrivateKey, kd: PrivateKey,
                    self: Request, byOca: Request, byCek: Request, byPek: Request, ocaFirst: bool)
    requires Fresh(c, chain.oca, ko) && Fresh(c, chain.cek, kc) && Fresh(c, chain.pek, kp) && Fresh(c, chain.pdh, kd)
    requires Answered(c, self, ko, chain.oca.body) && Answered(c, byPek, kp, chain.pdh.body)
    requires Answered(c, byOca, ko, chain.pek.body) && Answered(c, byCek, kc, chain.pek.body)
    ensures Signed(chain.oca, self).Success? && Signed(chain.pdh, byPek).Success?
    ensures var qs := if ocaFirst then [byOca, byCek] else [byCek, byOca];
            ChainVerifies(c, Chain(Signed(chain.pdh, byPek).value, SignAll(chain.pek, qs),
                                   Signed(chain.oca, self).value, chain.cek))
  {
    SelfAndOther(c, chain.oca, self, chain.oca, ko);
    SelfAndOther(c, chain.pdh, byPek, chain.pek, kd);
    if ocaFirst {
      BothSigned(c, chain.pek, byOca, byCek, chain.oca, chain.cek);
    } else {
      BothSigned(c, chain.pek, byCek, byOca, chain.cek, chain.oca);
    }
    var qs := if ocaFirst then [byOca, byCek] else [byCek, byOca];
    var oca, pek := Signed(chain.oca, self).value, SignAll(chain.pek, qs);
    SameSigner(c, chain.oca, oca, oca);
    SameSigner(c, chain.oca, oca, pek);
    SameSigner(c, chain.pek, pek, Signed(chain.pdh, byPek).value);
  }

  /** Verification needs a slot with the usage and algorithm of the signer. */
  lemma SlotUsed(c: Crypto, key: PublicKey, target: Cert) returns (slot: Slot)
    requires EitherSlot(c, key, target)
    ensures slot == target.sig0 || slot == target.sig1
    ensures SlotVerifies(c, key, target.body, slot) && !slot.IsEmpty()
    ensures slot.usage == key.usage && KindOf(slot.algo) == Some(key.key.kind) && DigestOf(slot.algo) == Some(key.digest)
  {
    slot := if SlotVerifies(c, key, target.body, target.sig0) then target.sig0 else target.sig1;
  }

  lemma PekSlots(c: Crypto, chain: Chain)
    requires ChainVerifies(c, chain) && chain.oca.body.usage != chain.cek.body.usage
    ensures chain.pek.EmptySlots() == 0
    ensures {chain.pek.sig0.usage, chain.pek.sig1.usage} == {chain.oca.body.usage, chain.cek.body.usage}
  {
    var a := SlotUsed(c, PublicKeyOf(c, chain.oca).value, chain.pek);
    var b := SlotUsed(c, PublicKeyOf(c, chain.cek).value, chain.pek);
    assert a != b;
  }

  /** Conversely to `EitherOrder`: in a chain that verifies, both slots of the PEK are taken,
      one by the OCA and one by the CEK, so no further signature is accepted. */
  lemma PekIsFull(c: Crypto, chain: Chain, q: Request)
    requires ChainVerifies(c, chain) && chain.oca.body.usage != chain.cek.body.usage && q.Valid()
    ensures {chain.pek.sig0.usage, chain.pek.sig1.usage} == {chain.oca.body.usage, chain.cek.body.usage}
    ensures Signed(chain.pek, q) == Failure(InvalidInput)
  {
    PekSlots(c, chain);
  }
}
