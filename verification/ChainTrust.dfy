/** Verification of a full chain: the CA certificates with their key identities, then the
    platform certificates. */
module ChainTrust {
  import opened ByteStrings
  import opened Outcomes
  import opened Integers
  import opened SevCertificates
  import opened ChainCodec

  /** Checking signatures, and building an RSA key from modulus and exponent. */
  datatype Engine = Engine(crypto: Crypto, rsa: (nat, nat) -> Option<int>)

  /** 2048-bit certificates use SHA-256, 4096-bit ones SHA-384. */
  function SizeDigest(n: nat): Digest {
    if n == 256 then SHA256 else SHA384
  }

  function CaKeyOf(g: Engine, c: CaCert): Result<PublicKey, SevError> {
    if c.preamble.version != 1 || c.preamble.Size().Failure? then Failure(InvalidInput)
    else
      match g.rsa(FromLe(c.modulus), FromLe(c.pubexp))
      case None => Failure(OpenSsl)
      case Some(name) =>
        var digest := SizeDigest(c.preamble.Size().value);
        Success(PublicKey(Some(c.preamble.kid), KeyPair(RSA, name), digest, c.preamble.usage))
  }

  /** The signature of a CA certificate names its signer and always has the ARK usage. */
  function CaSignatureOf(c: CaCert): Result<Signature, SevError> {
    if c.preamble.version != 1 || c.preamble.Size().Failure? then Failure(InvalidInput)
    else Success(Signature(Some(c.preamble.sid), RsaSig(Reverse(c.signature)), RSA,
                           SizeDigest(c.preamble.Size().value), SevCertificates.ARK))
  }

  function EncodeCaBody(c: CaCert): Bytes {
    LeBytes(c.preamble.version, 4) + EncodePreambleData(c.preamble) + c.pubexp + c.modulus
  }

  predicate CaVerifies(g: Engine, signer: CaCert, target: CaCert) {
    && CaKeyOf(g, signer).Success? && CaSignatureOf(target).Success?
    && KeyVerify(g.crypto, CaKeyOf(g, signer).value, EncodeCaBody(target), CaSignatureOf(target).value)
  }

  /** A CA certificate as signer of a platform certificate. */
  predicate CaSigned(g: Engine, signer: CaCert, target: Cert) {
    CaKeyOf(g, signer).Success? && target.body.version == 1 && EitherSlot(g.crypto, CaKeyOf(g, signer).value, target)
  }

  predicate FullVerifies(g: Engine, chain: FullChain) {
    && CaVerifies(g, chain.ca.ark, chain.ca.ark)
    && CaVerifies(g, chain.ca.ark, chain.ca.ask)
    && CaSigned(g, chain.ca.ask, chain.sev.cek)
    && ChainVerifies(g.crypto, chain.sev)
  }

  function CaResult(g: Engine, signer: CaCert, target: CaCert): Result<(), SevError> {
    var key :- CaKeyOf(g, signer);
    var sig :- CaSignatureOf(target);
    KeyResult(g.crypto, key, EncodeCaBody(target), sig)
  }

  function AskResult(g: Engine, signer: CaCert, target: Cert): Result<(), SevError> {
    var key :- CaKeyOf(g, signer);
    if CaSigned(g, signer, target) then Success(()) else Failure(InvalidInput)
  }

  /** The outcome of a chain of checks is that of the first that fails. */
  function Then(a: Result<(), SevError>, b: Result<(), SevError>): Result<(), SevError> {
    if a.Failure? then a else b
  }

  function PlatformResult(c: Crypto, chain: Chain): Result<(), SevError> {
    Then(VerifyResult(c, chain.oca, chain.oca), Then(VerifyResult(c, chain.oca, chain.pek),
      Then(VerifyResult(c, chain.cek, chain.pek), VerifyResult(c, chain.pek, chain.pdh))))
  }

  function FullResult(g: Engine, chain: FullChain): Result<(), SevError> {
    Then(CaResult(g, chain.ca.ark, chain.ca.ark), Then(CaResult(g, chain.ca.ark, chain.ca.ask),
      Then(AskResult(g, chain.ca.ask, chain.sev.cek), PlatformResult(g.crypto, chain.sev))))
  }

  method VerifyCa(g: Engine, signer: CaCert, target: CaCert) returns (r: Result<(), SevError>)
    ensures r == CaResult(g, signer, target)
    ensures r.Success? <==> CaVerifies(g, signer, target)
  {
    var key := CaKeyOf(g, signer);
    if key.Failure? { return Failure(key.error); }
    var sig := CaSignatureOf(target);
    if sig.Failure? { return Failure(sig.error); }
    if sig.value.usage != key.value.usage || sig.value.kind != key.value.key.kind
       || sig.value.digest != key.value.digest || (sig.value.id.Some? && sig.value.id != key.value.id) {
      return Failure(InvalidInput);
    }
    if !g.crypto.check(key.value.key, sig.value.digest, EncodeCaBody(target), sig.value.payload) {
      return Failure(NotFound);
    }
    r := Success(());
  }

  method VerifyPlatform(c: Crypto, chain: Chain) returns (r: Result<(), SevError>)
    ensures r == PlatformResult(c, chain)
    ensures r.Success? <==> ChainVerifies(c, chain)
  {
    r := Verify(c, chain.oca, chain.oca);
    if r.Failure? { return; }
    r := Verify(c, chain.oca, chain.pek);
    if r.Failure? { return; }
    r := Verify(c, chain.cek, chain.pek);
    if r.Failure? { return; }
    r := Verify(c, chain.pek, chain.pdh);
  }

  /** `Chain::verify`, check by check. */
  method VerifyFull(g: Engine, chain: FullChain) returns (r: Result<(), SevError>)
    ensures r == FullResult(g, chain)
    ensures r.Success? <==> FullVerifies(g, chain)
  {
    r := VerifyCa(g, chain.ca.ark, chain.ca.ark);
    if r.Failure? { return; }
    r := VerifyCa(g, chain.ca.ark, chain.ca.ask);
    if r.Failure? { return; }
    var key := CaKeyOf(g, chain.ca.ask);
    if key.Failure? { return Failure(key.error); }
    r := VerifySlots(g.crypto, key.value, chain.sev.cek);
    if r.Failure? { return; }
    r := VerifyPlatform(g.crypto, chain.sev);
  }

  // ---------- what verification comes to ----------

  /** The bytes a CA certificate is signed over, at their offsets: everything in front of its
      signature. */
  lemma CaSignedBytes(c: CaCert)
    ensures var x, n, p := EncodeCaBody(c), |c.pubexp|, c.preamble;
            && |x| == 64 + n + |c.modulus|
            && LeValue(x[0..4]) == p.version && x[4..20] == p.kid && x[20..36] == p.sid
            && LeValue(x[36..40]) == p.usage && x[40..56] == p.reserved
            && LeValue(x[56..60]) == p.psize && LeValue(x[60..64]) == p.msize
            && x[64..64 + n] == c.pubexp && x[64 + n..] == c.modulus
  {
    var p := c.preamble;
    PreambleParts(p.kid, p.sid, LeBytes(p.usage, 4), p.reserved, LeBytes(p.psize, 4), LeBytes(p.msize, 4));
    BodyParts(LeBytes(p.version, 4), EncodePreambleData(p), c.pubexp, c.modulus);
    Powers();
    LeValueOfBytes(p.version, 4);
    LeValueOfBytes(p.usage, 4);
    LeValueOfBytes(p.psize, 4);
    LeValueOfBytes(p.msize, 4);
    Inner(LeBytes(p.version, 4), EncodePreambleData(p), c.pubexp + c.modulus, EncodeCaBody(c));
  }

  lemma BodyParts(v: Bytes, d: Bytes, e: Bytes, m: Bytes)
    requires |v| == 4 && |d| == 60
    ensures v + d + e + m == v + d + (e + m)
    ensures var x := v + d + e + m; x[64..64 + |e|] == e && x[64 + |e|..] == m && x[0..4] == v
  {
  }

  /** Offsets inside the preamble are four less than in the certificate. */
  lemma Inner(v: Bytes, d: Bytes, rest: Bytes, x: Bytes)
    requires |v| == 4 && |d| == 60 && x == v + d + rest
    ensures forall i, j :: 0 <= i <= j <= 60 ==> x[i + 4..j + 4] == d[i..j]
    ensures x[4..20] == d[..16] && x[20..36] == d[16..32] && x[36..40] == d[32..36]
    ensures x[40..56] == d[36..52] && x[56..60] == d[52..56] && x[60..64] == d[56..60]
  {
    assert x[4..64] == d;
    forall i, j | 0 <= i <= j <= 60 ensures x[i + 4..j + 4] == d[i..j] {
      SliceOfSlice(x, 4, 64, i, j);
    }
    SliceOfSlice(x, 4, 64, 0, 16);
    SliceOfSlice(x, 4, 64, 16, 32);
    SliceOfSlice(x, 4, 64, 32, 36);
    SliceOfSlice(x, 4, 64, 36, 52);
    SliceOfSlice(x, 4, 64, 52, 56);
    SliceOfSlice(x, 4, 64, 56, 60);
  }

  predicate Sized(p: Preamble) { p.psize == p.msize && p.msize in {2048, 4096} }

  /** The key of a CA certificate: version 1, one of the two sizes, and the little-endian
      modulus and exponent; the size gives the digest. */
  lemma CaKeyExact(g: Engine, c: CaCert)
    ensures var p, key := c.preamble, g.rsa(LeValue(c.modulus), LeValue(c.pubexp));
            CaKeyOf(g, c) ==
              if p.version != 1 || !Sized(p) then Failure(InvalidInput)
              else if key.None? then Failure(OpenSsl)
              else Success(PublicKey(Some(p.kid), KeyPair(RSA, key.value),
                                     if p.msize == 2048 then SHA256 else SHA384, p.usage))
  {
    FromLeIsLeValue(c.modulus);
    FromLeIsLeValue(c.pubexp);
  }

  /** An ARK signed a CA certificate: both are of version 1 and of one of the two sizes, the
      target names the ARK as its signer, and its signature, turned around, checks by the RSA
      key of the ARK over the target's bytes. */
  predicate CaSignedBy(g: Engine, signer: CaCert, target: CaCert) {
    var p, q := signer.preamble, target.preamble;
    var key := g.rsa(LeValue(signer.modulus), LeValue(signer.pubexp));
    && p.version == 1 && q.version == 1 && p.usage == 0 && q.sid == p.kid
    && p.msize == p.psize == q.msize == q.psize && p.msize in {2048, 4096}
    && key.Some?
    && g.crypto.check(KeyPair(RSA, key.value), if p.msize == 2048 then SHA256 else SHA384,
                      EncodeCaBody(target), RsaSig(Reverse(target.signature)))
  }

  lemma CaVerifiesExactly(g: Engine, signer: CaCert, target: CaCert)
    ensures CaVerifies(g, signer, target) <==> CaSignedBy(g, signer, target)
  {
    CaKeyExact(g, signer);
  }

  /** A CA certificate as signer of a platform certificate. */
  lemma CaSignedExactly(g: Engine, signer: CaCert, target: Cert)
    ensures CaSigned(g, signer, target) <==>
              CaKeyOf(g, signer).Success? && SignedBy(g.crypto, CaKeyOf(g, signer).value, target)
  {
    if CaKeyOf(g, signer).Success? {
      SlotSigns(g.crypto, CaKeyOf(g, signer).value, target.body, target.sig0);
      SlotSigns(g.crypto, CaKeyOf(g, signer).value, target.body, target.sig1);
    }
  }

  /** What is wrong with a pair of CA certificates: OpenSSL refuses the key, or the signature
      says it is by the key and does not check, or something else does not agree. */
  lemma CaErrors(g: Engine, signer: CaCert, target: CaCert)
    ensures var p, q := signer.preamble, target.preamble;
            var readable := p.version == 1 && Sized(p);
            var key := g.rsa(LeValue(signer.modulus), LeValue(signer.pubexp));
            && (CaResult(g, signer, target) == Failure(OpenSsl) <==> readable && key.None?)
            && (CaResult(g, signer, target) == Failure(NotFound) <==>
                  && readable && key.Some? && q.version == 1 && Sized(q) && p.msize == q.msize
                  && p.usage == 0 && q.sid == p.kid
                  && !g.crypto.check(KeyPair(RSA, key.value), if p.msize == 2048 then SHA256 else SHA384,
                                     EncodeCaBody(target), RsaSig(Reverse(target.signature))))
  {
    CaKeyExact(g, signer);
  }

  ghost predicate PlatformLink(c: Crypto, signer: Cert, target: Cert) {
    PublicKeyOf(c, signer).Success? && SignedBy(c, PublicKeyOf(c, signer).value, target)
  }

  /** A full chain verifies exactly when each of its seven links carries a signature that
      checks: ARK over ARK and ASK, ASK over CEK, OCA over OCA, OCA and CEK over PEK, and PEK
      over PDH. */
  lemma FullExactly(g: Engine, chain: FullChain)
    ensures FullVerifies(g, chain) <==>
              var ark, ask, sev := chain.ca.ark, chain.ca.ask, chain.sev;
              && CaSignedBy(g, ark, ark) && CaSignedBy(g, ark, ask)
              && CaKeyOf(g, ask).Success? && SignedBy(g.crypto, CaKeyOf(g, ask).value, sev.cek)
              && PlatformLink(g.crypto, sev.oca, sev.oca) && PlatformLink(g.crypto, sev.oca, sev.pek)
              && PlatformLink(g.crypto, sev.cek, sev.pek) && PlatformLink(g.crypto, sev.pek, sev.pdh)
  {
    CaVerifiesExactly(g, chain.ca.ark, chain.ca.ark);
    CaVerifiesExactly(g, chain.ca.ark, chain.ca.ask);
    CaSignedExactly(g, chain.ca.ask, chain.sev.cek);
    VerifiesExactly(g.crypto, chain.sev.oca, chain.sev.oca);
    VerifiesExactly(g.crypto, chain.sev.oca, chain.sev.pek);
    VerifiesExactly(g.crypto, chain.sev.cek, chain.sev.pek);
    VerifiesExactly(g.crypto, chain.sev.pek, chain.sev.pdh);
  }

  /** What a verified link between CA certificates says: the signer is an ARK, the target names
      it, and both have the same key size. */
  lemma CaLink(g: Engine, signer: CaCert, target: CaCert)
    requires CaVerifies(g, signer, target)
    ensures signer.preamble.usage == SevCertificates.ARK && target.preamble.sid == signer.preamble.kid
    ensures signer.preamble.Size() == target.preamble.Size()
  {
  }

  /** The algorithm a CA key of a size signs with. */
  function CaAlgo(n: nat): U32 {
    if n == 256 then RSA_SHA256 else RSA_SHA384
  }

  /** A chain that is decoded and verified is linked throughout: the ARK is its own issuer and
      the ASK's, both are of one size, the CEK carries an ASK signature of that size, and the
      two slots of the PEK are taken by the OCA and the CEK. */
  lemma Linked(g: Engine, s: Bytes, fault: Fault, known: KnownSig)
    requires Decode(s, fault, known).Success? && FullVerifies(g, Decode(s, fault, known).value.value)
    ensures var chain := Decode(s, fault, known).value.value;
            var ark, ask := chain.ca.ark.preamble, chain.ca.ask.preamble;
            && ark.sid == ark.kid && ask.sid == ark.kid && ask.msize == ark.msize
            && (exists slot :: slot in [chain.sev.cek.sig0, chain.sev.cek.sig1]
                  && slot.usage == SevCertificates.ASK && slot.algo == CaAlgo(ask.Size().value))
            && {chain.sev.pek.sig0.usage, chain.sev.pek.sig1.usage} == {OCA, CEK}
  {
    DecodedChain(s, fault, known);
    var chain := Decode(s, fault, known).value.value;
    CaLink(g, chain.ca.ark, chain.ca.ark);
    CaLink(g, chain.ca.ark, chain.ca.ask);
    CekSlot(g, chain.ca.ask, chain.sev.cek);
    PekSlots(g.crypto, chain.sev);
  }

  lemma CekSlot(g: Engine, ask: CaCert, cek: Cert)
    requires CaSigned(g, ask, cek) && ask.WellFormed()
    ensures exists slot :: slot in [cek.sig0, cek.sig1]
              && slot.usage == ask.preamble.usage && slot.algo == CaAlgo(ask.preamble.Size().value)
  {
    var slot := SlotUsed(g.crypto, CaKeyOf(g, ask).value, cek);
    assert slot in [cek.sig0, cek.sig1];
  }
}
