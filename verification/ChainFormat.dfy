/** Where the fields of certificates and chains lie in their files, and which inputs decode. */
module ChainFormat {
  import opened ByteStrings
  import opened Outcomes
  import opened SevCertificates
  import opened ChainCodec

  lemma OneWord()
    ensures LeBytes(1, 4) == [1, 0, 0, 0]
    ensures forall s: Bytes :: |s| == 4 ==> (LeValue(s) == 1 <==> s == [1, 0, 0, 0])
  {
    assert LeBytes(0, 1) == [0] && LeBytes(0, 2) == [0, 0] && LeBytes(0, 3) == [0, 0, 0];
    Version();
    forall s: Bytes | |s| == 4 ensures LeValue(s) == 1 <==> s == [1, 0, 0, 0] {
      LeBytesOfValue(s);
    }
  }

  lemma WordValue(w: U32)
    ensures LeValue(LeBytes(w, 4)) == w
  {
    Powers();
    LeValueOfBytes(w, 4);
  }

  // ---------- platform certificates ----------

  /** A slot at an offset: usage, algorithm, 512 bytes of data. */
  predicate SlotAt(s: Bytes, at: nat, slot: Slot)
    requires at + 520 <= |s|
  {
    LeValue(s[at..at + 4]) == slot.usage && LeValue(s[at + 4..at + 8]) == slot.algo &&
    s[at + 8..at + 520] == slot.data
  }

  predicate BodyAt(s: Bytes, b: Body)
    requires |s| >= 1044
  {
    && s[4..8] == b.firmware && LeValue(s[8..12]) == b.usage && LeValue(s[12..16]) == b.algo
    && s[16..1044] == b.key
  }

  lemma SlotBytes(slot: Slot)
    ensures SlotAt(EncodeSlot(slot), 0, slot)
  {
    var s := EncodeSlot(slot);
    assert s[0..4] == LeBytes(slot.usage, 4) && s[4..8] == LeBytes(slot.algo, 4) && s[8..520] == slot.data;
    WordValue(slot.usage);
    WordValue(slot.algo);
  }

  lemma SlotMoves(a: Bytes, slot: Slot, b: Bytes)
    ensures SlotAt(a + EncodeSlot(slot) + b, |a|, slot)
  {
    var e := EncodeSlot(slot);
    var s := a + e + b;
    SlotBytes(slot);
    assert s[|a|..|a| + 520] == e;
    SliceOfSlice(s, |a|, |a| + 520, 0, 4);
    SliceOfSlice(s, |a|, |a| + 520, 4, 8);
    SliceOfSlice(s, |a|, |a| + 520, 8, 520);
  }

  /** An encoded platform certificate, field by field; only version 1 is encoded. */
  lemma CertBytes(c: Cert)
    ensures EncodeCert(c) == Failure(BadInput) <==> c.body.version != 1
    ensures c.body.version == 1 ==>
              EncodeCert(c).Success? && var s := EncodeCert(c).value;
              && |s| == 2084 && s[0..4] == [1, 0, 0, 0]
              && BodyAt(s, c.body) && SlotAt(s, 1044, c.sig0) && SlotAt(s, 1564, c.sig1)
  {
    if c.body.version == 1 {
      var b, e0, e1 := EncodeBody(c.body), EncodeSlot(c.sig0), EncodeSlot(c.sig1);
      assert b + e0 + e1 == b + (e0 + e1) && b + e0 + e1 + [] == b + e0 + e1;
      OneWord();
      SignedBytes(c.body);
      PrefixSlice(b, e0 + e1, 0, 4);
      PrefixSlice(b, e0 + e1, 4, 8);
      PrefixSlice(b, e0 + e1, 8, 12);
      PrefixSlice(b, e0 + e1, 12, 16);
      PrefixSlice(b, e0 + e1, 16, 1044);
      SlotMoves(b, c.sig0, e1);
      SlotMoves(b + e0, c.sig1, []);
    }
  }

  /** What a read past the end reports. */
  function EndOf(fault: Fault): CodecError { if fault.Eof? then UnexpectedEof else IoError }

  /** A platform certificate decodes exactly from 2084 bytes that begin with the version; what
      follows is left. */
  lemma CertDecodes(s: Bytes, fault: Fault)
    ensures DecodeCert(s, fault).Success? <==> |s| >= 2084 && s[0..4] == [1, 0, 0, 0]
    ensures DecodeCert(s, fault) == Failure(InvalidData) <==> |s| >= 4 && s[0..4] != [1, 0, 0, 0]
    ensures DecodeCert(s, fault).Failure? && DecodeCert(s, fault).error != InvalidData ==>
              DecodeCert(s, fault) == Failure(EndOf(fault))
    ensures DecodeCert(s, fault).Success? ==>
              var got := DecodeCert(s, fault).value;
              var c := got.value;
              && c.body.version == 1 && got.rest == s[2084..]
              && BodyAt(s, c.body) && SlotAt(s, 1044, c.sig0) && SlotAt(s, 1564, c.sig1)
  {
    OneWord();
    if |s| >= 4 { assert s[0..4] == s[..4]; }
    if DecodeCert(s, fault).Success? {
      CertInverse(s, fault);
      var got := DecodeCert(s, fault).value;
      CertBytes(got.value);
      FieldsMove(EncodeCert(got.value).value, got.rest, got.value);
    }
  }

  lemma FieldsMove(e: Bytes, rest: Bytes, c: Cert)
    requires |e| == 2084 && BodyAt(e, c.body) && SlotAt(e, 1044, c.sig0) && SlotAt(e, 1564, c.sig1)
    ensures var s := e + rest;
            BodyAt(s, c.body) && SlotAt(s, 1044, c.sig0) && SlotAt(s, 1564, c.sig1) && s[2084..] == rest
  {
    BodyMoves(e, rest, c.body);
    SlotStays(e, rest, 1044, c.sig0);
    SlotStays(e, rest, 1564, c.sig1);
  }

  lemma BodyMoves(e: Bytes, rest: Bytes, b: Body)
    requires |e| >= 1044 && BodyAt(e, b)
    ensures BodyAt(e + rest, b)
  {
    PrefixSlice(e, rest, 4, 8);
    PrefixSlice(e, rest, 8, 12);
    PrefixSlice(e, rest, 12, 16);
    PrefixSlice(e, rest, 16, 1044);
  }

  lemma SlotStays(e: Bytes, rest: Bytes, at: nat, slot: Slot)
    requires at + 520 <= |e| && SlotAt(e, at, slot)
    ensures SlotAt(e + rest, at, slot)
  {
    PrefixSlice(e, rest, at, at + 4);
    PrefixSlice(e, rest, at + 4, at + 8);
    PrefixSlice(e, rest, at + 8, at + 520);
  }

  // ---------- certificate authority certificates ----------

  /** The preamble in the first 64 bytes of a CA certificate. */
  predicate PreambleAt(s: Bytes, p: Preamble)
    requires |s| >= 64
  {
    && s[4..20] == p.kid && s[20..36] == p.sid && LeValue(s[36..40]) == p.usage && s[40..56] == p.reserved
    && LeValue(s[56..60]) == p.psize && LeValue(s[60..64]) == p.msize
  }

  predicate NumbersAt(s: Bytes, n: nat, c: CaCert)
    requires |s| >= 64 + 2 * n
  {
    s[64..64 + n] == c.pubexp && s[64 + n..64 + 2 * n] == c.modulus
  }

  lemma PreambleBytes(p: Preamble, contents: Bytes)
    ensures var s := LeBytes(1, 4) + (EncodePreambleData(p) + contents);
            s[0..4] == [1, 0, 0, 0] && PreambleAt(s, p) && s[64..] == contents
  {
    OneWord();
    var d := EncodePreambleData(p);
    var s := LeBytes(1, 4) + (d + contents);
    PreambleParts(p.kid, p.sid, LeBytes(p.usage, 4), p.reserved, LeBytes(p.psize, 4), LeBytes(p.msize, 4));
    WordValue(p.usage);
    WordValue(p.psize);
    WordValue(p.msize);
    assert s[4..64] == d;
    SliceOfSlice(s, 4, 64, 0, 16);
    SliceOfSlice(s, 4, 64, 16, 32);
    SliceOfSlice(s, 4, 64, 32, 36);
    SliceOfSlice(s, 4, 64, 36, 52);
    SliceOfSlice(s, 4, 64, 52, 56);
    SliceOfSlice(s, 4, 64, 56, 60);
  }

  /** The width of the numbers in bytes, from the two sizes in bits. */
  function Width(psize: nat, msize: nat): Option<nat> {
    if psize != msize then None else if msize == 2048 then Some(256) else if msize == 4096 then Some(512) else None
  }

  /** An encoded CA certificate, field by field, and when there is none. */
  lemma CaBytes(c: CaCert)
    ensures var p := c.preamble;
            EncodeCa(c).Success? <==> p.version == 1 && Width(p.psize, p.msize).Some?
    ensures EncodeCa(c).Failure? ==> EncodeCa(c).error == BadInput
    ensures c.WellFormed() ==>
              var s, n := EncodeCa(c).value, Width(c.preamble.psize, c.preamble.msize).value;
              |s| == 64 + 3 * n && s[0..4] == [1, 0, 0, 0] && PreambleAt(s, c.preamble) && NumbersAt(s, n, c)
              && s[64 + 2 * n..] == c.signature
  {
    if c.WellFormed() {
      var d := EncodePreambleData(c.preamble);
      var rest := c.pubexp + (c.modulus + c.signature);
      Nest(LeBytes(1, 4), d, c.pubexp, c.modulus, c.signature);
      PreambleBytes(c.preamble, rest);
      NumberSlices(LeBytes(1, 4) + (d + rest), c.pubexp, c.modulus, c.signature);
    }
  }

  lemma NumberSlices(s: Bytes, e: Bytes, m: Bytes, sig: Bytes)
    requires |s| >= 64 && s[64..] == e + (m + sig)
    ensures s[64..64 + |e|] == e && s[64 + |e|..64 + |e| + |m|] == m && s[64 + |e| + |m|..] == sig
  {
    var t := s[64..];
    assert t[..|e|] == e && t[|e|..|e| + |m|] == m && t[|e| + |m|..] == sig;
  }

  /** The preamble whose signature may be missing whatever the fault. */
  predicate NaplesAt(s: Bytes)
    requires |s| >= 64
  {
    && s[4..20] == [0x1b, 0xb9, 0x87, 0xc3, 0x59, 0x49, 0x46, 0x06, 0xb1, 0x74, 0x94, 0x56, 0x01, 0xc9, 0xea, 0x5b]
    && s[20..36] == s[4..20] && LeValue(s[36..40]) == 0 && s[40..56] == Zeros(16)
    && LeValue(s[56..60]) == 2048 && LeValue(s[60..64]) == 2048
  }

  /** What a CA certificate decodes to, by the bytes: the error, or whether the signature is
      there. */
  datatype CaOutcome = Fails(error: CodecError) | Signed | Lacking

  function CaOutcomeOf(s: Bytes, fault: Fault): CaOutcome {
    if |s| < 4 then Fails(EndOf(fault))
    else if s[0..4] != [1, 0, 0, 0] then Fails(InvalidData)
    else if |s| < 64 then Fails(EndOf(fault))
    else
      match Width(LeValue(s[56..60]), LeValue(s[60..64]))
      case None => Fails(BadInput)
      case Some(n) =>
        if |s| < 64 + 2 * n then Fails(EndOf(fault))
        else if |s| >= 64 + 3 * n then Signed
        else if !fault.Eof? && !NaplesAt(s) then Fails(IoError)
        else if n == 512 then Fails(Panic)
        else Lacking
  }

  lemma HeaderOf(s: Bytes, fault: Fault, known: KnownSig) returns (p: Preamble)
    requires |s| >= 64 && s[0..4] == [1, 0, 0, 0]
    ensures p.version == 1 && PreambleAt(s, p) && (p == NAPLES_ARK <==> NaplesAt(s))
    ensures DecodeCa(s, fault, known) ==
            if p.Size().Failure? then Failure(BadInput) else DecodeContents(p, p.Size().value, s[64..], fault, known)
  {
    OneWord();
    p := PreambleOf(s[4..64]);
    assert s[4..][..60] == s[4..64] && s[4..][60..] == s[64..] && s[..4] == s[0..4];
    PreambleInverse(s[4..64]);
    PreambleBytes(p, s[64..]);
    assert s == LeBytes(1, 4) + (EncodePreambleData(p) + s[64..]);
  }

  /** The numbers after a preamble, by offsets in the certificate. */
  lemma ContentsExact(p: Preamble, n: nat, s: Bytes, fault: Fault, known: KnownSig)
    requires |s| >= 64
    ensures DecodeContents(p, n, s[64..], fault, known) ==
            if |s| < 64 + 2 * n then Failure(EndOf(fault))
            else if |s| >= 64 + 3 * n then
              Success(Read(CaCert(p, s[64..64 + n], s[64 + n..64 + 2 * n], s[64 + 2 * n..64 + 3 * n]), s[64 + 3 * n..]))
            else if !fault.Eof? && p != NAPLES_ARK then Failure(IoError)
            else if n != 256 then Failure(Panic)
            else Success(Read(CaCert(p, s[64..64 + n], s[64 + n..64 + 2 * n], known), []))
  {
    TakeAt(s, 64, n, fault);
    if 64 + n <= |s| { TakeAt(s, 64 + n, n, fault); }
    if 64 + 2 * n <= |s| { TakeAt(s, 64 + 2 * n, n, fault); }
  }

  lemma TakeAt(s: Bytes, at: nat, n: nat, fault: Fault)
    requires at <= |s|
    ensures Take(s[at..], n, fault) ==
            if |s| < at + n then Failure(EndOf(fault)) else Success(Read(s[at..at + n], s[at + n..]))
  {
    if at + n <= |s| {
      assert s[at..][..n] == s[at..at + n] && s[at..][n..] == s[at + n..];
    }
  }

  /** A certificate read from the bytes, its signature, and what is left. */
  predicate CaReads(s: Bytes, n: nat, sig: Bytes, rest: Bytes, r: Result<Read<CaCert>, CodecError>)
    requires |s| >= 64 + 2 * n
  {
    && r.Success? && r.value.rest == rest
    && var c := r.value.value;
       c.preamble.version == 1 && PreambleAt(s, c.preamble) && NumbersAt(s, n, c) && c.signature == sig
  }

  predicate MeetsOutcome(s: Bytes, fault: Fault, known: KnownSig, r: Result<Read<CaCert>, CodecError>) {
    match CaOutcomeOf(s, fault)
    case Fails(e) => r == Failure(e)
    case Signed =>
      var n := Width(LeValue(s[56..60]), LeValue(s[60..64])).value;
      CaReads(s, n, s[64 + 2 * n..64 + 3 * n], s[64 + 3 * n..], r)
    case Lacking => CaReads(s, 256, known, [], r)
  }

  /** Which bytes decode as a CA certificate, what they decode to, and which errors the others
      give. */
  lemma CaDecodes(s: Bytes, fault: Fault, known: KnownSig)
    ensures MeetsOutcome(s, fault, known, DecodeCa(s, fault, known))
  {
    if |s| >= 64 && s[0..4] == [1, 0, 0, 0] {
      var p := HeaderOf(s, fault, known);
      if p.Size().Success? { AfterHeader(s, p, p.Size().value, fault, known); }
    } else {
      HeaderFails(s, fault, known);
    }
  }

  lemma ReadsFrom(s: Bytes, n: nat, p: Preamble, sig: Bytes, rest: Bytes)
    requires |s| >= 64 + 2 * n && p.version == 1 && PreambleAt(s, p)
    ensures CaReads(s, n, sig, rest, Success(Read(CaCert(p, s[64..64 + n], s[64 + n..64 + 2 * n], sig), rest)))
  {
  }

  /** The outcome in terms of the width. */
  lemma OutcomeAfter(s: Bytes, p: Preamble, n: nat, fault: Fault)
    requires |s| >= 64 && s[0..4] == [1, 0, 0, 0] && PreambleAt(s, p) && p.Size() == Success(n)
    ensures Width(LeValue(s[56..60]), LeValue(s[60..64])) == Some(n) && (n == 256 || n == 512)
    ensures CaOutcomeOf(s, fault) ==
            if |s| < 64 + 2 * n then Fails(EndOf(fault))
            else if |s| >= 64 + 3 * n then Signed
            else if !fault.Eof? && !NaplesAt(s) then Fails(IoError)
            else if n == 512 then Fails(Panic)
            else Lacking
  {
  }

  lemma AfterHeader(s: Bytes, p: Preamble, n: nat, fault: Fault, known: KnownSig)
    requires |s| >= 64 && s[0..4] == [1, 0, 0, 0] && p.version == 1 && PreambleAt(s, p)
    requires p.Size() == Success(n) && (p == NAPLES_ARK <==> NaplesAt(s))
    ensures MeetsOutcome(s, fault, known, DecodeContents(p, n, s[64..], fault, known))
  {
    ContentsExact(p, n, s, fault, known);
    OutcomeAfter(s, p, n, fault);
    if |s| >= 64 + 3 * n {
      ReadsFrom(s, n, p, s[64 + 2 * n..64 + 3 * n], s[64 + 3 * n..]);
    } else if |s| >= 64 + 2 * n {
      ReadsFrom(s, n, p, known, []);
    }
  }

  lemma HeaderFails(s: Bytes, fault: Fault, known: KnownSig)
    requires |s| < 64 || s[0..4] != [1, 0, 0, 0]
    ensures DecodeCa(s, fault, known) ==
            Failure(if |s| >= 4 && s[0..4] != [1, 0, 0, 0] then InvalidData else EndOf(fault))
  {
    OneWord();
    if |s| >= 4 { assert s[..4] == s[0..4] && |s[4..]| == |s| - 4; }
  }

  // ---------- chains ----------

  lemma FourParts(a: Bytes, b: Bytes, c: Bytes, d: Bytes, e: Bytes)
    requires |a| == 2084 && |b| == 2084 && |c| == 2084 && |d| == 2084
    ensures var s := a + b + c + d + e;
            && s[0..2084] == a && s[2084..4168] == b && s[4168..6252] == c && s[6252..8336] == d && s[8336..] == e
  {
  }

  /** Where the certificates of an encoded chain lie: PDH, PEK, OCA, CEK, ASK, ARK. */
  lemma ChainBytes(c: FullChain)
    requires WellFormed(c)
    ensures Encode(c).Success? && EncodeCa(c.ca.ask).Success? && EncodeCa(c.ca.ark).Success?
    ensures var s := Encode(c).value;
            && |s| >= 8336
            && s[0..2084] == EncodeCert(c.sev.pdh).value && s[2084..4168] == EncodeCert(c.sev.pek).value
            && s[4168..6252] == EncodeCert(c.sev.oca).value && s[6252..8336] == EncodeCert(c.sev.cek).value
            && s[8336..] == EncodeCa(c.ca.ask).value + EncodeCa(c.ca.ark).value
  {
    CaBytes(c.ca.ask);
    CaBytes(c.ca.ark);
    FourParts(EncodeCert(c.sev.pdh).value, EncodeCert(c.sev.pek).value, EncodeCert(c.sev.oca).value,
              EncodeCert(c.sev.cek).value, EncodeCa(c.ca.ask).value + EncodeCa(c.ca.ark).value);
  }

  /** What keeps the platform certificate at an offset from being read with a usage. */
  function CertError(s: Bytes, at: nat, usage: U32, fault: Fault): Option<CodecError> {
    if at + 4 <= |s| && s[at..at + 4] != [1, 0, 0, 0] then Some(InvalidData)
    else if |s| < at + 2084 then Some(EndOf(fault))
    else if LeValue(s[at + 8..at + 12]) != usage then Some(BadInput)
    else None
  }

  function ErrorOf<T>(r: Result<T, CodecError>): Option<CodecError> {
    if r.Failure? then Some(r.error) else None
  }

  /** A certificate is read at an offset with this error or none, and leaves what follows. */
  predicate ReadAt(s: Bytes, at: nat, r: Result<Read<Cert>, CodecError>, e: Option<CodecError>) {
    ErrorOf(r) == e && (e.None? ==> at + 2084 <= |s| && r.value.rest == s[at + 2084..])
  }

  lemma CertAt(s: Bytes, at: nat, usage: U32, fault: Fault)
    requires at <= |s|
    ensures ReadAt(s, at, DecodeAs(s[at..], fault, usage), CertError(s, at, usage, fault))
  {
    var t := s[at..];
    CertDecodes(t, fault);
    if |t| >= 4 { assert t[0..4] == s[at..at + 4]; }
    if |t| >= 2084 { assert t[8..12] == s[at + 8..at + 12] && t[2084..] == s[at + 2084..]; }
  }

  function PlatformError(s: Bytes, fault: Fault): Option<CodecError> {
    if CertError(s, 0, 0x1003, fault).Some? then CertError(s, 0, 0x1003, fault)
    else if CertError(s, 2084, 0x1002, fault).Some? then CertError(s, 2084, 0x1002, fault)
    else if CertError(s, 4168, 0x1001, fault).Some? then CertError(s, 4168, 0x1001, fault)
    else CertError(s, 6252, 0x1004, fault)
  }

  lemma LastTwo(s: Bytes, fault: Fault, e2: Option<CodecError>, e3: Option<CodecError>)
    requires 4168 <= |s| && ReadAt(s, 4168, DecodeAs(s[4168..], fault, OCA), e2)
    requires 6252 <= |s| ==> ReadAt(s, 6252, DecodeAs(s[6252..], fault, CEK), e3)
    requires DecodeAs(s, fault, PDH).Success? && DecodeAs(s, fault, PDH).value.rest == s[2084..]
    requires DecodeAs(s[2084..], fault, PEK).Success? && DecodeAs(s[2084..], fault, PEK).value.rest == s[4168..]
    ensures ErrorOf(DecodeSev(s, fault)) == (if e2.Some? then e2 else e3)
    ensures DecodeSev(s, fault).Success? ==> |s| >= 8336 && DecodeSev(s, fault).value.rest == s[8336..]
  {
  }

  lemma FirstFails(s: Bytes, fault: Fault)
    ensures DecodeAs(s, fault, PDH).Failure? ==> ErrorOf(DecodeSev(s, fault)) == ErrorOf(DecodeAs(s, fault, PDH))
  {
  }

  lemma SecondFails(s: Bytes, fault: Fault)
    requires DecodeAs(s, fault, PDH).Success?
    ensures var pek := DecodeAs(DecodeAs(s, fault, PDH).value.rest, fault, PEK);
            pek.Failure? ==> ErrorOf(DecodeSev(s, fault)) == ErrorOf(pek)
  {
  }

  /** A platform chain decodes exactly when no certificate is in error, each at its offset with
      its usage; otherwise the first error is reported. */
  lemma SevDecodes(s: Bytes, fault: Fault)
    ensures ErrorOf(DecodeSev(s, fault)) == PlatformError(s, fault)
    ensures DecodeSev(s, fault).Success? ==> |s| >= 8336 && DecodeSev(s, fault).value.rest == s[8336..]
  {
    assert s[0..] == s;
    CertAt(s, 0, 0x1003, fault);
    FirstFails(s, fault);
    if CertError(s, 0, 0x1003, fault).None? {
      CertAt(s, 2084, 0x1002, fault);
      SecondFails(s, fault);
      if CertError(s, 2084, 0x1002, fault).None? {
        CertAt(s, 4168, 0x1001, fault);
        if |s| >= 6252 { CertAt(s, 6252, 0x1004, fault); }
        LastTwo(s, fault, CertError(s, 4168, 0x1001, fault), CertError(s, 6252, 0x1004, fault));
      }
    }
  }

  /** What keeps the bytes from being read as a CA certificate with a usage. */
  function CaError(s: Bytes, usage: U32, fault: Fault): Option<CodecError> {
    match CaOutcomeOf(s, fault)
    case Fails(e) => Some(e)
    case _ => if LeValue(s[36..40]) != usage then Some(BadInput) else None
  }

  lemma CaAt(s: Bytes, usage: U32, fault: Fault, known: KnownSig)
    ensures match CaError(s, usage, fault)
            case Some(e) => DecodeCaAs(s, fault, known, usage) == Failure(e)
            case None => DecodeCaAs(s, fault, known, usage).Success?
    ensures DecodeCaAs(s, fault, known, usage).Success? ==>
              MeetsOutcome(s, fault, known, DecodeCaAs(s, fault, known, usage))
  {
    CaDecodes(s, fault, known);
  }

  /** The ASK is read first and the ARK from what it leaves; usages are 0x13 and 0. */
  lemma AuthorityDecodes(s: Bytes, fault: Fault, known: KnownSig)
    ensures CaError(s, 0x13, fault).Some? ==> DecodeAuthority(s, fault, known) == Failure(CaError(s, 0x13, fault).value)
    ensures CaError(s, 0x13, fault).None? ==>
              DecodeCa(s, fault, known).Success? && var rest := DecodeCa(s, fault, known).value.rest;
              match CaError(rest, 0, fault)
              case Some(e) => DecodeAuthority(s, fault, known) == Failure(e)
              case None => DecodeAuthority(s, fault, known).Success?
  {
    CaAt(s, 0x13, fault, known);
    if CaError(s, 0x13, fault).None? {
      CaAt(DecodeCa(s, fault, known).value.rest, 0, fault, known);
    }
  }

  /** A full chain is the platform chain followed by the authority; the first error is
      reported. */
  lemma ChainDecodes(s: Bytes, fault: Fault, known: KnownSig)
    ensures DecodeSev(s, fault).Failure? ==> Decode(s, fault, known) == Failure(DecodeSev(s, fault).error)
    ensures DecodeSev(s, fault).Success? ==>
              |s| >= 8336 &&
              match DecodeAuthority(s[8336..], fault, known)
              case Failure(e) => Decode(s, fault, known) == Failure(e)
              case Success(ca) =>
                Decode(s, fault, known) == Success(Read(FullChain(ca.value, DecodeSev(s, fault).value.value), ca.rest))
  {
    SevDecodes(s, fault);
  }

  /** The usages of a decoded chain, by number. */
  lemma UsageNumbers(c: FullChain)
    ensures RightUsages(c) <==>
              && c.sev.pdh.body.usage == 0x1003 && c.sev.pek.body.usage == 0x1002
              && c.sev.oca.body.usage == 0x1001 && c.sev.cek.body.usage == 0x1004
              && c.ca.ask.preamble.usage == 0x13 && c.ca.ark.preamble.usage == 0x0
  {
  }
}
