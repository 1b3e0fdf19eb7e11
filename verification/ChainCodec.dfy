/** Encoding and decoding of the full SEV certificate chain over byte streams. */
module ChainCodec {
  import opened ByteStrings
  import opened Outcomes
  import opened SevCertificates

  /** What a read past the end of the data yields: a regular end of file, or another error. */
  datatype Fault = Eof | Broken

  /** `Panic` stands for copying a slice of the wrong length. */
  datatype CodecError = UnexpectedEof | IoError | InvalidData | BadInput | Panic

  /** A value read, and what is left of the stream. */
  datatype Read<T> = Read(value: T, rest: Bytes)

  function Take(s: Bytes, n: nat, fault: Fault): (r: Result<Read<Bytes>, CodecError>)
    ensures r.Success? ==> |r.value.value| == n && s == r.value.value + r.value.rest
  {
    if n <= |s| then Success(Read(s[..n], s[n..]))
    else Failure(if fault.Eof? then UnexpectedEof else IoError)
  }

  lemma TakeAppend(a: Bytes, b: Bytes, fault: Fault)
    ensures Take(a + b, |a|, fault) == Success(Read(a, b))
  {
  }

  /** A reader that hands out bytes from the front; a failed exact read consumes the rest. */
  class Reader {
    var rest: Bytes
    const fault: Fault

    constructor (data: Bytes, fault: Fault)
      ensures rest == data && this.fault == fault
    {
      this.rest, this.fault := data, fault;
    }

    method ReadExact(n: nat) returns (r: Result<Bytes, CodecError>)
      modifies this
      ensures match Take(old(rest), n, fault)
              case Failure(e) => r == Failure(e) && rest == []
              case Success(got) => r == Success(got.value) && rest == got.rest
    {
      if n <= |rest| {
        r := Success(rest[..n]);
        rest := rest[n..];
      } else {
        rest := [];
        r := Failure(if fault.Eof? then UnexpectedEof else IoError);
      }
    }
  }

  class Writer {
    var out: Bytes

    constructor ()
      ensures out == []
    {
      out := [];
    }

    method WriteAll(s: Bytes)
      modifies this
      ensures out == old(out) + s
    {
      out := out + s;
    }
  }

  // ---------- platform certificates ----------

  const BODY_DATA := 1040
  const SLOT_SIZE := 520

  function EncodeSlot(slot: Slot): (s: Bytes)
    ensures |s| == SLOT_SIZE
  {
    LeBytes(slot.usage, 4) + LeBytes(slot.algo, 4) + slot.data
  }

  function SlotOf(s: Bytes): Slot
    requires |s| == SLOT_SIZE
  {
    Slot(ReadU32(s, 0), ReadU32(s, 4), s[8..])
  }

  function EncodeBodyData(b: Body): (s: Bytes)
    ensures |s| == BODY_DATA
  {
    b.firmware + LeBytes(b.usage, 4) + LeBytes(b.algo, 4) + b.key
  }

  function BodyOf(s: Bytes): Body
    requires |s| == BODY_DATA
  {
    Body(1, s[..4], ReadU32(s, 4), ReadU32(s, 8), s[12..])
  }

  lemma WordOf(s: Bytes, at: nat, w: U32)
    requires at + 4 <= |s|
    ensures ReadU32(s, at) == w <==> s[at..at + 4] == LeBytes(w, 4)
  {
    LeBytesOfValue(s[at..at + 4]);
    Powers();
    LeValueOfBytes(w, 4);
  }

  lemma SlotRoundTrip(slot: Slot)
    ensures SlotOf(EncodeSlot(slot)) == slot
  {
    var s := EncodeSlot(slot);
    assert s[0..4] == LeBytes(slot.usage, 4) && s[4..8] == LeBytes(slot.algo, 4) && s[8..] == slot.data;
    WordOf(s, 0, slot.usage);
    WordOf(s, 4, slot.algo);
  }

  /** A word read and written again. */
  lemma WordInverse(s: Bytes, at: nat)
    requires at + 4 <= |s|
    ensures LeBytes(ReadU32(s, at), 4) == s[at..at + 4]
  {
    WordOf(s, at, ReadU32(s, at));
  }

  lemma SlotInverse(s: Bytes)
    requires |s| == SLOT_SIZE
    ensures EncodeSlot(SlotOf(s)) == s
  {
    WordInverse(s, 0);
    WordInverse(s, 4);
    assert s == s[0..4] + s[4..8] + s[8..];
  }

  lemma BodyRoundTrip(b: Body)
    requires b.version == 1
    ensures BodyOf(EncodeBodyData(b)) == b
    ensures EncodeBody(b) == LeBytes(1, 4) + EncodeBodyData(b)
  {
    var s := EncodeBodyData(b);
    assert s[..4] == b.firmware && s[4..8] == LeBytes(b.usage, 4);
    assert s[8..12] == LeBytes(b.algo, 4) && s[12..] == b.key;
    WordOf(s, 4, b.usage);
    WordOf(s, 8, b.algo);
  }

  lemma BodyInverse(s: Bytes)
    requires |s| == BODY_DATA
    ensures EncodeBodyData(BodyOf(s)) == s
  {
    WordInverse(s, 4);
    WordInverse(s, 8);
    assert s == s[..4] + s[4..8] + s[8..12] + s[12..];
  }

  function EncodeCert(c: Cert): Result<Bytes, CodecError> {
    if c.body.version != 1 then Failure(BadInput)
    else Success(EncodeBody(c.body) + EncodeSlot(c.sig0) + EncodeSlot(c.sig1))
  }

  function DecodeCert(s: Bytes, fault: Fault): Result<Read<Cert>, CodecError> {
    var version :- Take(s, 4, fault);
    if LeValue(version.value) != 1 then Failure(InvalidData)
    else
      var data :- Take(version.rest, BODY_DATA, fault);
      var sig0 :- Take(data.rest, SLOT_SIZE, fault);
      var sig1 :- Take(sig0.rest, SLOT_SIZE, fault);
      Success(Read(Cert(BodyOf(data.value), SlotOf(sig0.value), SlotOf(sig1.value)), sig1.rest))
  }

  lemma Version()
    ensures LeValue(LeBytes(1, 4)) == 1
  {
    Powers();
    LeValueOfBytes(1, 4);
  }

  lemma Nest(a: Bytes, b: Bytes, c: Bytes, d: Bytes, e: Bytes)
    ensures a + b + c + d + e == a + (b + (c + (d + e)))
  {
  }

  lemma DecodeParts(v: Bytes, data: Bytes, s0: Bytes, s1: Bytes, rest: Bytes, fault: Fault)
    requires |v| == 4 && LeValue(v) == 1 && |data| == BODY_DATA && |s0| == SLOT_SIZE && |s1| == SLOT_SIZE
    ensures DecodeCert(v + data + s0 + s1 + rest, fault) ==
            Success(Read(Cert(BodyOf(data), SlotOf(s0), SlotOf(s1)), rest))
  {
    Nest(v, data, s0, s1, rest);
    TakeAppend(v, data + (s0 + (s1 + rest)), fault);
    TakeAppend(data, s0 + (s1 + rest), fault);
    TakeAppend(s0, s1 + rest, fault);
    TakeAppend(s1, rest, fault);
  }

  lemma CertRoundTrip(c: Cert, rest: Bytes, fault: Fault)
    requires c.body.version == 1
    ensures DecodeCert(EncodeCert(c).value + rest, fault) == Success(Read(c, rest))
  {
    Version();
    BodyRoundTrip(c.body);
    SlotRoundTrip(c.sig0);
    SlotRoundTrip(c.sig1);
    DecodeParts(LeBytes(1, 4), EncodeBodyData(c.body), EncodeSlot(c.sig0), EncodeSlot(c.sig1), rest, fault);
  }

  /** Decoding succeeds only on an encoding, so the two are inverse to each other. */
  lemma CertInverse(s: Bytes, fault: Fault)
    requires DecodeCert(s, fault).Success?
    ensures var got := DecodeCert(s, fault).value;
            EncodeCert(got.value).Success? && s == EncodeCert(got.value).value + got.rest
  {
    var version := Take(s, 4, fault).value;
    var data := Take(version.rest, BODY_DATA, fault).value;
    var sig0 := Take(data.rest, SLOT_SIZE, fault).value;
    var sig1 := Take(sig0.rest, SLOT_SIZE, fault).value;
    Powers();
    LeBytesOfValue(version.value);
    BodyInverse(data.value);
    SlotInverse(sig0.value);
    SlotInverse(sig1.value);
    BodyRoundTrip(BodyOf(data.value));
    Nest(version.value, data.value, sig0.value, sig1.value, sig1.rest);
  }

  method DecodeSevCert(reader: Reader) returns (r: Result<Cert, CodecError>)
    modifies reader
    ensures match DecodeCert(old(reader.rest), reader.fault)
            case Failure(e) => r == Failure(e)
            case Success(got) => r == Success(got.value) && reader.rest == got.rest
  {
    var version := reader.ReadExact(4);
    if version.Failure? { return Failure(version.error); }
    if LeValue(version.value) != 1 { return Failure(InvalidData); }
    var data := reader.ReadExact(1040);
    if data.Failure? { return Failure(data.error); }
    var sig0 := reader.ReadExact(520);
    if sig0.Failure? { return Failure(sig0.error); }
    var sig1 := reader.ReadExact(520);
    if sig1.Failure? { return Failure(sig1.error); }
    r := Success(Cert(BodyOf(data.value), SlotOf(sig0.value), SlotOf(sig1.value)));
  }

  method EncodeSevCert(writer: Writer, c: Cert) returns (r: Result<(), CodecError>)
    modifies writer
    ensures match EncodeCert(c)
            case Failure(e) => r == Failure(e) && writer.out == old(writer.out)
            case Success(s) => r == Success(()) && writer.out == old(writer.out) + s
  {
    if c.body.version != 1 { return Failure(BadInput); }
    writer.WriteAll(EncodeBody(c.body) + EncodeSlot(c.sig0) + EncodeSlot(c.sig1));
    r := Success(());
  }

  // ---------- certificate authority certificates ----------

  const PREAMBLE_DATA := 60

  datatype Preamble = Preamble(version: U32, kid: Id, sid: Id, usage: U32, reserved: Id, psize: U32, msize: U32) {
    /** The width of the three numbers. */
    function Size(): Result<nat, CodecError> {
      if psize != msize then Failure(BadInput)
      else if msize == 2048 then Success(256)
      else if msize == 4096 then Success(512)
      else Failure(BadInput)
    }
  }

  const NAPLES_ID: Id :=
    [0x1b, 0xb9, 0x87, 0xc3, 0x59, 0x49, 0x46, 0x06, 0xb1, 0x74, 0x94, 0x56, 0x01, 0xc9, 0xea, 0x5b]
  const NAPLES_ARK := Preamble(1, NAPLES_ID, NAPLES_ID, ARK, Zeros(16), 2048, 2048)

  /** The signature AMD supplied for the Naples ARK, whose file lacks it. */
  type KnownSig = s: Bytes | |s| == 256 witness Zeros(256)

  datatype CaCert = CaCert(preamble: Preamble, pubexp: Bytes, modulus: Bytes, signature: Bytes) {
    /** What the types of the fields guarantee. */
    predicate WellFormed() {
      && preamble.version == 1 && preamble.Size().Success?
      && |pubexp| == preamble.Size().value && |modulus| == preamble.Size().value
      && |signature| == preamble.Size().value
    }
  }

  function EncodePreambleData(p: Preamble): (s: Bytes)
    ensures |s| == PREAMBLE_DATA
  {
    p.kid + p.sid + LeBytes(p.usage, 4) + p.reserved + LeBytes(p.psize, 4) + LeBytes(p.msize, 4)
  }

  function PreambleOf(s: Bytes): Preamble
    requires |s| == PREAMBLE_DATA
  {
    Preamble(1, s[..16], s[16..32], ReadU32(s, 32), s[36..52], ReadU32(s, 52), ReadU32(s, 56))
  }

  lemma PreambleParts(a: Bytes, b: Bytes, c: Bytes, d: Bytes, e: Bytes, f: Bytes)
    requires |a| == 16 && |b| == 16 && |c| == 4 && |d| == 16 && |e| == 4 && |f| == 4
    ensures var s := a + b + c + d + e + f;
            && s[..16] == a && s[16..32] == b && s[32..36] == c
            && s[36..52] == d && s[52..56] == e && s[56..60] == f
  {
  }

  lemma PreambleRoundTrip(p: Preamble)
    requires p.version == 1
    ensures PreambleOf(EncodePreambleData(p)) == p
  {
    var s := EncodePreambleData(p);
    PreambleParts(p.kid, p.sid, LeBytes(p.usage, 4), p.reserved, LeBytes(p.psize, 4), LeBytes(p.msize, 4));
    WordOf(s, 32, p.usage);
    WordOf(s, 52, p.psize);
    WordOf(s, 56, p.msize);
  }

  lemma PreambleInverse(s: Bytes)
    requires |s| == PREAMBLE_DATA
    ensures EncodePreambleData(PreambleOf(s)) == s
  {
    WordInverse(s, 32);
    WordInverse(s, 52);
    WordInverse(s, 56);
    assert s == s[..16] + s[16..32] + s[32..36] + s[36..52] + s[52..56] + s[56..60];
  }

  function EncodeCa(c: CaCert): Result<Bytes, CodecError> {
    if c.preamble.version != 1 then Failure(BadInput)
    else
      var _ :- c.preamble.Size();
      Success(LeBytes(1, 4) + EncodePreambleData(c.preamble) + c.pubexp + c.modulus + c.signature)
  }

  /** The numbers after a preamble.  A signature that cannot be read is replaced by the known
      one if the data simply ended or the preamble is that of the Naples ARK. */
  function DecodeContents(p: Preamble, n: nat, s: Bytes, fault: Fault, known: KnownSig)
      : Result<Read<CaCert>, CodecError>
  {
    var pubexp :- Take(s, n, fault);
    var modulus :- Take(pubexp.rest, n, fault);
    match Take(modulus.rest, n, fault)
    case Success(sig) => Success(Read(CaCert(p, pubexp.value, modulus.value, sig.value), sig.rest))
    case Failure(e) =>
      if e != UnexpectedEof && p != NAPLES_ARK then Failure(e)
      else if n != |known| then Failure(Panic)
      else Success(Read(CaCert(p, pubexp.value, modulus.value, known), []))
  }

  function DecodeCa(s: Bytes, fault: Fault, known: KnownSig): Result<Read<CaCert>, CodecError> {
    var version :- Take(s, 4, fault);
    if LeValue(version.value) != 1 then Failure(InvalidData)
    else
      var data :- Take(version.rest, PREAMBLE_DATA, fault);
      var n :- PreambleOf(data.value).Size();
      DecodeContents(PreambleOf(data.value), n, data.rest, fault, known)
  }

  method DecodeCaCert(reader: Reader, known: KnownSig) returns (r: Result<CaCert, CodecError>)
    modifies reader
    ensures match DecodeCa(old(reader.rest), reader.fault, known)
            case Failure(e) => r == Failure(e)
            case Success(got) => r == Success(got.value) && reader.rest == got.rest
  {
    var version := reader.ReadExact(4);
    if version.Failure? { return Failure(version.error); }
    if LeValue(version.value) != 1 { return Failure(InvalidData); }
    var data := reader.ReadExact(60);
    if data.Failure? { return Failure(data.error); }
    var preamble := PreambleOf(data.value);
    var n := preamble.Size();
    if n.Failure? { return Failure(n.error); }
    r := DecodeCaContents(reader, preamble, n.value, known);
  }

  method DecodeCaContents(reader: Reader, preamble: Preamble, n: nat, known: KnownSig)
      returns (r: Result<CaCert, CodecError>)
    modifies reader
    ensures match DecodeContents(preamble, n, old(reader.rest), reader.fault, known)
            case Failure(e) => r == Failure(e)
            case Success(got) => r == Success(got.value) && reader.rest == got.rest
  {
    var pubexp := reader.ReadExact(n);
    if pubexp.Failure? { return Failure(pubexp.error); }
    var modulus := reader.ReadExact(n);
    if modulus.Failure? { return Failure(modulus.error); }
    var signature := reader.ReadExact(n);
    if signature.Failure? {
      if signature.error != UnexpectedEof && preamble != NAPLES_ARK {
        return Failure(signature.error);
      }
      if |known| != n { return Failure(Panic); }
      return Success(CaCert(preamble, pubexp.value, modulus.value, known));
    }
    r := Success(CaCert(preamble, pubexp.value, modulus.value, signature.value));
  }

  method EncodeCaCert(writer: Writer, c: CaCert) returns (r: Result<(), CodecError>)
    modifies writer
    ensures match EncodeCa(c)
            case Failure(e) => r == Failure(e) && writer.out == old(writer.out)
            case Success(s) => r == Success(()) && writer.out == old(writer.out) + s
  {
    if c.preamble.version != 1 { return Failure(BadInput); }
    var n := c.preamble.Size();
    if n.Failure? { return Failure(n.error); }
    writer.WriteAll(LeBytes(1, 4) + EncodePreambleData(c.preamble) + c.pubexp + c.modulus + c.signature);
    r := Success(());
  }

  lemma ContentsParts(p: Preamble, n: nat, e: Bytes, m: Bytes, sig: Bytes, fault: Fault, known: KnownSig)
    requires |e| == n && |m| == n
    ensures Take(e + (m + sig), n, fault) == Success(Read(e, m + sig))
    ensures Take(m + sig, n, fault) == Success(Read(m, sig))
    ensures match Take(sig, n, fault)
            case Success(got) =>
              DecodeContents(p, n, e + (m + sig), fault, known) == Success(Read(CaCert(p, e, m, got.value), got.rest))
            case Failure(err) =>
              DecodeContents(p, n, e + (m + sig), fault, known) ==
              if err != UnexpectedEof && p != NAPLES_ARK then Failure(err)
              else if n != 256 then Failure(Panic)
              else Success(Read(CaCert(p, e, m, known), []))
  {
    TakeAppend(e, m + sig, fault);
    TakeAppend(m, sig, fault);
  }

  /** A version and a preamble in front of the contents. */
  lemma CaHeader(p: Preamble, contents: Bytes, fault: Fault, known: KnownSig)
    requires p.version == 1 && p.Size().Success?
    ensures DecodeCa(LeBytes(1, 4) + (EncodePreambleData(p) + contents), fault, known) ==
            DecodeContents(p, p.Size().value, contents, fault, known)
  {
    Version();
    PreambleRoundTrip(p);
    TakeAppend(LeBytes(1, 4), EncodePreambleData(p) + contents, fault);
    TakeAppend(EncodePreambleData(p), contents, fault);
  }

  lemma CaRoundTrip(c: CaCert, rest: Bytes, fault: Fault, known: KnownSig)
    requires c.WellFormed()
    ensures EncodeCa(c).Success? && DecodeCa(EncodeCa(c).value + rest, fault, known) == Success(Read(c, rest))
  {
    var n := c.preamble.Size().value;
    Nest(LeBytes(1, 4), EncodePreambleData(c.preamble), c.pubexp, c.modulus, c.signature + rest);
    Assoc(LeBytes(1, 4) + EncodePreambleData(c.preamble) + c.pubexp + c.modulus, c.signature, rest);
    CaHeader(c.preamble, c.pubexp + (c.modulus + (c.signature + rest)), fault, known);
    ContentsParts(c.preamble, n, c.pubexp, c.modulus, c.signature + rest, fault, known);
    TakeAppend(c.signature, rest, fault);
  }

  // ---------- truncated certificates ----------

  /** A certificate cut short somewhere in its signature. */
  function CutCa(p: Preamble, pubexp: Bytes, modulus: Bytes, part: Bytes): Bytes {
    LeBytes(1, 4) + EncodePreambleData(p) + pubexp + modulus + part
  }

  /** What becomes of a certificate cut short: it is accepted exactly when it is a 2048-bit
      one and the data ended regularly or it is the Naples ARK; a 4096-bit one panics at a
      regular end. */
  lemma CutDecodes(p: Preamble, pubexp: Bytes, modulus: Bytes, part: Bytes, fault: Fault, known: KnownSig)
    requires p.version == 1 && p.Size().Success?
    requires |pubexp| == p.Size().value && |modulus| == p.Size().value && |part| < p.Size().value
    ensures var r := DecodeCa(CutCa(p, pubexp, modulus, part), fault, known);
            && (r.Success? <==> p.msize == 2048 && (fault.Eof? || p == NAPLES_ARK))
            && (r.Success? ==> r.value == Read(CaCert(p, pubexp, modulus, known), []))
            && (r == Failure(Panic) <==> p.msize == 4096 && fault.Eof?)
  {
    Nest(LeBytes(1, 4), EncodePreambleData(p), pubexp, modulus, part);
    CaHeader(p, pubexp + (modulus + part), fault, known);
    ContentsParts(p, p.Size().value, pubexp, modulus, part, fault, known);
  }

  /** A Naples ARK cut anywhere in its signature decodes as if the known signature were there. */
  lemma NaplesArk(pubexp: Bytes, modulus: Bytes, part: Bytes, fault: Fault, known: KnownSig)
    requires |pubexp| == 256 && |modulus| == 256 && |part| < 256
    ensures var full := CaCert(NAPLES_ARK, pubexp, modulus, known);
            && DecodeCa(CutCa(NAPLES_ARK, pubexp, modulus, part), fault, known) == Success(Read(full, []))
            && DecodeCa(EncodeCa(full).value, fault, known) == Success(Read(full, []))
  {
    CutDecodes(NAPLES_ARK, pubexp, modulus, part, fault, known);
    CaRoundTrip(CaCert(NAPLES_ARK, pubexp, modulus, known), [], fault, known);
    var s := EncodeCa(CaCert(NAPLES_ARK, pubexp, modulus, known)).value;
    assert s + [] == s;
  }

  /** The replacement is not limited to the Naples ARK, as its comment says: an ASK without
      its signature is given the Naples one. */
  lemma OtherPreamble(fault: Fault, known: KnownSig) returns (p: Preamble)
    requires fault.Eof?
    ensures p.usage == ASK && p != NAPLES_ARK
    ensures DecodeCa(CutCa(p, Zeros(256), Zeros(256), []), fault, known) ==
            Success(Read(CaCert(p, Zeros(256), Zeros(256), known), []))
  {
    p := Preamble(1, Zeros(16), Zeros(16), ASK, Zeros(16), 2048, 2048);
    CutDecodes(p, Zeros(256), Zeros(256), [], fault, known);
  }

  lemma CaParts(s: Bytes, fault: Fault, known: KnownSig) returns (p: Preamble, contents: Bytes)
    requires DecodeCa(s, fault, known).Success?
    ensures p.version == 1 && p.Size().Success? && s == LeBytes(1, 4) + (EncodePreambleData(p) + contents)
    ensures DecodeCa(s, fault, known) == DecodeContents(p, p.Size().value, contents, fault, known)
  {
    var version := Take(s, 4, fault).value;
    var data := Take(version.rest, PREAMBLE_DATA, fault).value;
    Powers();
    LeBytesOfValue(version.value);
    PreambleInverse(data.value);
    p, contents := PreambleOf(data.value), data.rest;
  }

  lemma Regroup(v: Bytes, d: Bytes, e: Bytes, m: Bytes, sig: Bytes, rest: Bytes)
    ensures v + (d + (e + m + sig + rest)) == v + d + e + m + sig + rest
  {
    Assoc(v, d, e + m + sig + rest);
    Assoc(v + d, e + m + sig, rest);
    Assoc(v + d, e + m, sig);
    Assoc(v + d, e, m);
  }

  /** Conversely, whatever decodes is well formed, and was either encoded in full or cut short
      in its signature. */
  lemma CaInverse(s: Bytes, fault: Fault, known: KnownSig)
    requires DecodeCa(s, fault, known).Success?
    ensures var got := DecodeCa(s, fault, known).value;
            && got.value.WellFormed()
            && (|| s == EncodeCa(got.value).value + got.rest
                || (got.rest == [] && got.value.signature == known && |s| < |EncodeCa(got.value).value|
                    && (fault.Eof? || got.value.preamble == NAPLES_ARK)))
  {
    var p, contents := CaParts(s, fault, known);
    ContentsInverse(p, p.Size().value, contents, fault, known);
    var got := DecodeContents(p, p.Size().value, contents, fault, known).value;
    var c := got.value;
    Regroup(LeBytes(1, 4), EncodePreambleData(p), c.pubexp, c.modulus, c.signature, got.rest);
  }

  lemma ContentsInverse(p: Preamble, n: nat, s: Bytes, fault: Fault, known: KnownSig)
    requires DecodeContents(p, n, s, fault, known).Success?
    ensures var got := DecodeContents(p, n, s, fault, known).value;
            var c := got.value;
            && c.preamble == p && |c.pubexp| == n && |c.modulus| == n && |c.signature| == n
            && (|| s == c.pubexp + c.modulus + c.signature + got.rest
                || (got.rest == [] && c.signature == known && |s| < 3 * n && (fault.Eof? || p == NAPLES_ARK)))
  {
    var e := Take(s, n, fault).value;
    var m := Take(e.rest, n, fault).value;
    Assoc(e.value, m.value, m.rest);
    if n <= |m.rest| {
      Assoc(e.value + m.value, m.rest[..n], m.rest[n..]);
    }
  }

  // ---------- chains ----------

  datatype CaChain = CaChain(ask: CaCert, ark: CaCert)
  datatype FullChain = FullChain(ca: CaChain, sev: Chain)

  /** One certificate of a chain, which must have the usage of its position. */
  function DecodeAs(s: Bytes, fault: Fault, usage: U32): Result<Read<Cert>, CodecError> {
    var got :- DecodeCert(s, fault);
    if got.value.body.usage != usage then Failure(BadInput) else Success(got)
  }

  function DecodeCaAs(s: Bytes, fault: Fault, known: KnownSig, usage: U32): Result<Read<CaCert>, CodecError> {
    var got :- DecodeCa(s, fault, known);
    if got.value.preamble.usage != usage then Failure(BadInput) else Success(got)
  }

  function DecodeSev(s: Bytes, fault: Fault): Result<Read<Chain>, CodecError> {
    var pdh :- DecodeAs(s, fault, PDH);
    var pek :- DecodeAs(pdh.rest, fault, PEK);
    var oca :- DecodeAs(pek.rest, fault, OCA);
    var cek :- DecodeAs(oca.rest, fault, CEK);
    Success(Read(Chain(pdh.value, pek.value, oca.value, cek.value), cek.rest))
  }

  function DecodeAuthority(s: Bytes, fault: Fault, known: KnownSig): Result<Read<CaChain>, CodecError> {
    var ask :- DecodeCaAs(s, fault, known, ASK);
    var ark :- DecodeCaAs(ask.rest, fault, known, ARK);
    Success(Read(CaChain(ask.value, ark.value), ark.rest))
  }

  function Decode(s: Bytes, fault: Fault, known: KnownSig): Result<Read<FullChain>, CodecError> {
    var sev :- DecodeSev(s, fault);
    var ca :- DecodeAuthority(sev.rest, fault, known);
    Success(Read(FullChain(ca.value, sev.value), ca.rest))
  }

  function EncodeSev(c: Chain): Result<Bytes, CodecError> {
    var pdh :- EncodeCert(c.pdh);
    var pek :- EncodeCert(c.pek);
    var oca :- EncodeCert(c.oca);
    var cek :- EncodeCert(c.cek);
    Success(pdh + pek + oca + cek)
  }

  function EncodeAuthority(c: CaChain): Result<Bytes, CodecError> {
    var ask :- EncodeCa(c.ask);
    var ark :- EncodeCa(c.ark);
    Success(ask + ark)
  }

  function Encode(c: FullChain): Result<Bytes, CodecError> {
    var sev :- EncodeSev(c.sev);
    var ca :- EncodeAuthority(c.ca);
    Success(sev + ca)
  }

  /** Every certificate is of the modelled version and sizes; nothing is said of usages. */
  predicate WellFormed(c: FullChain) {
    && c.sev.pdh.body.version == 1 && c.sev.pek.body.version == 1
    && c.sev.oca.body.version == 1 && c.sev.cek.body.version == 1
    && c.ca.ask.WellFormed() && c.ca.ark.WellFormed()
  }

  predicate RightUsages(c: FullChain) {
    && c.sev.pdh.body.usage == PDH && c.sev.pek.body.usage == PEK
    && c.sev.oca.body.usage == OCA && c.sev.cek.body.usage == CEK
    && c.ca.ask.preamble.usage == ASK && c.ca.ark.preamble.usage == ARK
  }

  lemma CertAs(c: Cert, rest: Bytes, fault: Fault, usage: U32)
    requires c.body.version == 1
    ensures DecodeAs(EncodeCert(c).value + rest, fault, usage) ==
            if c.body.usage == usage then Success(Read(c, rest)) else Failure(BadInput)
  {
    CertRoundTrip(c, rest, fault);
  }

  lemma CaAs(c: CaCert, rest: Bytes, fault: Fault, known: KnownSig, usage: U32)
    requires c.WellFormed()
    ensures EncodeCa(c).Success?
    ensures DecodeCaAs(EncodeCa(c).value + rest, fault, known, usage) ==
            if c.preamble.usage == usage then Success(Read(c, rest)) else Failure(BadInput)
  {
    CaRoundTrip(c, rest, fault, known);
  }

  predicate SevUsages(c: Chain) {
    c.pdh.body.usage == PDH && c.pek.body.usage == PEK && c.oca.body.usage == OCA && c.cek.body.usage == CEK
  }

  lemma SevRoundTrip(c: Chain, rest: Bytes, fault: Fault)
    requires c.pdh.body.version == 1 && c.pek.body.version == 1 && c.oca.body.version == 1 && c.cek.body.version == 1
    ensures EncodeSev(c).Success?
    ensures DecodeSev(EncodeSev(c).value + rest, fault) ==
            if SevUsages(c) then Success(Read(c, rest)) else Failure(BadInput)
  {
    var pdh, pek := EncodeCert(c.pdh).value, EncodeCert(c.pek).value;
    var oca, cek := EncodeCert(c.oca).value, EncodeCert(c.cek).value;
    Nest(pdh, pek, oca, cek, rest);
    CertAs(c.pdh, pek + (oca + (cek + rest)), fault, PDH);
    CertAs(c.pek, oca + (cek + rest), fault, PEK);
    CertAs(c.oca, cek + rest, fault, OCA);
    CertAs(c.cek, rest, fault, CEK);
  }

  lemma AuthorityRoundTrip(c: CaChain, rest: Bytes, fault: Fault, known: KnownSig)
    requires c.ask.WellFormed() && c.ark.WellFormed()
    ensures EncodeAuthority(c).Success?
    ensures DecodeAuthority(EncodeAuthority(c).value + rest, fault, known) ==
            if c.ask.preamble.usage == ASK && c.ark.preamble.usage == ARK then Success(Read(c, rest))
            else Failure(BadInput)
  {
    CaAs(c.ark, rest, fault, known, ARK);
    var ask, ark := EncodeCa(c.ask), EncodeCa(c.ark);
    CaAs(c.ask, ark.value + rest, fault, known, ASK);
    Assoc(ask.value, ark.value, rest);
  }

  /** A full chain followed by anything decodes to itself and leaves exactly what followed,
      if and only if every certificate has the usage of its position; otherwise the chain is
      rejected. */
  lemma ChainRoundTrip(c: FullChain, rest: Bytes, fault: Fault, known: KnownSig)
    requires WellFormed(c)
    ensures Encode(c).Success?
    ensures Decode(Encode(c).value + rest, fault, known) ==
            if RightUsages(c) then Success(Read(c, rest)) else Failure(BadInput)
  {
    AuthorityRoundTrip(c.ca, rest, fault, known);
    var sev, ca := EncodeSev(c.sev), EncodeAuthority(c.ca);
    SevRoundTrip(c.sev, ca.value + rest, fault);
    Assoc(sev.value, ca.value, rest);
  }

  /** A chain file that stops inside the signature of a Naples ARK is read as the chain with
      the known signature. */
  lemma NaplesChain(sev: Chain, ask: CaCert, pubexp: Bytes, modulus: Bytes, part: Bytes, fault: Fault, known: KnownSig)
    requires |pubexp| == 256 && |modulus| == 256 && |part| < 256
    requires WellFormed(FullChain(CaChain(ask, CaCert(NAPLES_ARK, pubexp, modulus, known)), sev))
    requires RightUsages(FullChain(CaChain(ask, CaCert(NAPLES_ARK, pubexp, modulus, known)), sev))
    ensures EncodeSev(sev).Success? && EncodeCa(ask).Success?
    ensures var cut := CutCa(NAPLES_ARK, pubexp, modulus, part);
            Decode(EncodeSev(sev).value + (EncodeCa(ask).value + cut), fault, known) ==
            Success(Read(FullChain(CaChain(ask, CaCert(NAPLES_ARK, pubexp, modulus, known)), sev), []))
  {
    var cut := CutCa(NAPLES_ARK, pubexp, modulus, part);
    CaAs(ask, cut, fault, known, ASK);
    NaplesArk(pubexp, modulus, part, fault, known);
    SevRoundTrip(sev, EncodeCa(ask).value + cut, fault);
  }

  /** Whatever decodes as a chain is well formed and has the right usage in every position. */
  lemma DecodedChain(s: Bytes, fault: Fault, known: KnownSig)
    requires Decode(s, fault, known).Success?
    ensures WellFormed(Decode(s, fault, known).value.value) && RightUsages(Decode(s, fault, known).value.value)
  {
    var sev := DecodeSev(s, fault).value;
    var ask := DecodeCaAs(sev.rest, fault, known, ASK).value;
    CaInverse(sev.rest, fault, known);
    CaInverse(ask.rest, fault, known);
    DecodedSev(s, fault);
  }

  lemma DecodedSev(s: Bytes, fault: Fault)
    requires DecodeSev(s, fault).Success?
    ensures var c := DecodeSev(s, fault).value.value;
            && SevUsages(c) && c.pdh.body.version == 1 && c.pek.body.version == 1
            && c.oca.body.version == 1 && c.cek.body.version == 1
  {
    var pdh := DecodeAs(s, fault, PDH).value;
    var pek := DecodeAs(pdh.rest, fault, PEK).value;
    var oca := DecodeAs(pek.rest, fault, OCA).value;
    CertInverse(s, fault);
    CertInverse(pdh.rest, fault);
    CertInverse(pek.rest, fault);
    CertInverse(oca.rest, fault);
  }

  // ---------- decoding and encoding chains step by step ----------

  method DecodeChainCert(reader: Reader, usage: U32) returns (r: Result<Cert, CodecError>)
    modifies reader
    ensures match DecodeAs(old(reader.rest), reader.fault, usage)
            case Failure(e) => r == Failure(e)
            case Success(got) => r == Success(got.value) && reader.rest == got.rest
  {
    r := DecodeSevCert(reader);
    if r.Success? && r.value.body.usage != usage { r := Failure(BadInput); }
  }

  method DecodeChainCaCert(reader: Reader, known: KnownSig, usage: U32) returns (r: Result<CaCert, CodecError>)
    modifies reader
    ensures match DecodeCaAs(old(reader.rest), reader.fault, known, usage)
            case Failure(e) => r == Failure(e)
            case Success(got) => r == Success(got.value) && reader.rest == got.rest
  {
    r := DecodeCaCert(reader, known);
    if r.Success? && r.value.preamble.usage != usage { r := Failure(BadInput); }
  }

  method DecodeSevChain(reader: Reader) returns (r: Result<Chain, CodecError>)
    modifies reader
    ensures match DecodeSev(old(reader.rest), reader.fault)
            case Failure(e) => r == Failure(e)
            case Success(got) => r == Success(got.value) && reader.rest == got.rest
  {
    var pdh := DecodeChainCert(reader, PDH);
    if pdh.Failure? { return Failure(pdh.error); }
    var pek := DecodeChainCert(reader, PEK);
    if pek.Failure? { return Failure(pek.error); }
    var oca := DecodeChainCert(reader, OCA);
    if oca.Failure? { return Failure(oca.error); }
    var cek := DecodeChainCert(reader, CEK);
    if cek.Failure? { return Failure(cek.error); }
    r := Success(Chain(pdh.value, pek.value, oca.value, cek.value));
  }

  method DecodeFullChain(reader: Reader, known: KnownSig) returns (r: Result<FullChain, CodecError>)
    modifies reader
    ensures match Decode(old(reader.rest), reader.fault, known)
            case Failure(e) => r == Failure(e)
            case Success(got) => r == Success(got.value) && reader.rest == got.rest
  {
    var sev := DecodeSevChain(reader);
    if sev.Failure? { return Failure(sev.error); }
    var ask := DecodeChainCaCert(reader, known, ASK);
    if ask.Failure? { return Failure(ask.error); }
    var ark := DecodeChainCaCert(reader, known, ARK);
    if ark.Failure? { return Failure(ark.error); }
    r := Success(FullChain(CaChain(ask.value, ark.value), sev.value));
  }

  method EncodeSevChain(writer: Writer, c: Chain) returns (r: Result<(), CodecError>)
    modifies writer
    ensures match EncodeSev(c)
            case Failure(e) => r == Failure(e)
            case Success(s) => r == Success(()) && writer.out == old(writer.out) + s
  {
    r := EncodeSevCert(writer, c.pdh);
    if r.Failure? { return; }
    r := EncodeSevCert(writer, c.pek);
    if r.Failure? { return; }
    r := EncodeSevCert(writer, c.oca);
    if r.Failure? { return; }
    r := EncodeSevCert(writer, c.cek);
    if r.Failure? { return; }
    var pdh, pek := EncodeCert(c.pdh).value, EncodeCert(c.pek).value;
    var oca, cek := EncodeCert(c.oca).value, EncodeCert(c.cek).value;
    Nest(old(writer.out), pdh, pek, oca, cek);
    Nest([], pdh, pek, oca, cek);
  }

  method EncodeFullChain(writer: Writer, c: FullChain) returns (r: Result<(), CodecError>)
    modifies writer
    ensures match Encode(c)
            case Failure(e) => r == Failure(e)
            case Success(s) => r == Success(()) && writer.out == old(writer.out) + s
  {
    r := EncodeSevChain(writer, c.sev);
    if r.Failure? { return; }
    r := EncodeCaCert(writer, c.ca.ask);
    if r.Failure? { return; }
    r := EncodeCaCert(writer, c.ca.ark);
    if r.Failure? { return; }
    var sev, ask, ark := EncodeSev(c.sev).value, EncodeCa(c.ca.ask).value, EncodeCa(c.ca.ark).value;
    Assoc(old(writer.out), sev, ask);
    Assoc(old(writer.out), sev + ask, ark);
    Assoc(sev, ask, ark);
  }
}
