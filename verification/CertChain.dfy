/** Assembling an SNP certificate chain from a certificate table.  Decoding a certificate is
    an arbitrary partial function on bytes. */
module SnpChain {
  import opened ByteStrings
  import opened Outcomes
  import opened CertTable

  type Decoder<!C> = Bytes -> Option<C>

  datatype Chain<C> = Chain(ark: C, ask: C, vek: C)

  datatype ChainError = BadCertificate | MoreThanOne(kind: CertType) | NotFound(kind: CertType) | NoVek

  /** The four variables of the loop. */
  datatype Slots<C> = Slots(ark: Option<C>, ask: Option<C>, vcek: Option<C>, vlek: Option<C>) {
    function Get(kind: CertType): Option<C> {
      match kind
      case ARK => ark
      case ASK => ask
      case VCEK => vcek
      case VLEK => vlek
      case _ => None
    }

    function Put(kind: CertType, cert: C): Slots<C> {
      match kind
      case ARK => this.(ark := Some(cert))
      case ASK => this.(ask := Some(cert))
      case VCEK => this.(vcek := Some(cert))
      case VLEK => this.(vlek := Some(cert))
      case _ => this
    }

    function Assemble(): Result<Chain<C>, ChainError> {
      if ark.None? then Failure(NotFound(ARK))
      else if ask.None? then Failure(NotFound(ASK))
      else if vcek.None? && vlek.None? then Failure(NoVek)
      else Success(Chain(ark.value, ask.value, if vlek.Some? then vlek.value else vcek.value))
    }
  }

  /** One turn of the loop. */
  function Add<C>(decode: Decoder<C>, slots: Slots<C>, e: CertEntry): Result<Slots<C>, ChainError> {
    match decode(e.data)
    case None => Failure(BadCertificate)
    case Some(cert) =>
      if slots.Get(e.kind).Some? then Failure(MoreThanOne(e.kind)) else Success(slots.Put(e.kind, cert))
  }

  function Collect<C>(decode: Decoder<C>, entries: seq<CertEntry>): Result<Slots<C>, ChainError>
    decreases |entries|
  {
    if entries == [] then Success(Slots(None, None, None, None))
    else
      var slots :- Collect(decode, entries[..|entries|-1]);
      Add(decode, slots, entries[|entries|-1])
  }

  function ChainOf<C>(decode: Decoder<C>, entries: seq<CertEntry>): Result<Chain<C>, ChainError> {
    var slots :- Collect(decode, entries);
    slots.Assemble()
  }

  lemma {:induction false} FirstError<C>(decode: Decoder<C>, entries: seq<CertEntry>, i: nat)
    requires i <= |entries| && Collect(decode, entries[..i]).Failure?
    ensures Collect(decode, entries) == Collect(decode, entries[..i])
    decreases |entries|
  {
    if i < |entries| {
      assert entries[..|entries|-1][..i] == entries[..i];
      FirstError(decode, entries[..|entries|-1], i);
    } else {
      assert entries[..i] == entries;
    }
  }

  /** `parse_from_cert_table`. */
  method ParseFromCertTable<C>(decode: Decoder<C>, entries: seq<CertEntry>) returns (r: Result<Chain<C>, ChainError>)
    ensures r == ChainOf(decode, entries)
  {
    var ark: Option<C>, ask: Option<C>, vcek: Option<C>, vlek: Option<C> := None, None, None, None;
    for i := 0 to |entries|
      invariant Collect(decode, entries[..i]) == Success(Slots(ark, ask, vcek, vlek))
    {
      var entry := entries[i];
      assert entries[..i + 1][..i] == entries[..i];
      if Collect(decode, entries[..i + 1]).Failure? { FirstError(decode, entries, i + 1); }
      var cert := decode(entry.data);
      if cert.None? { return Failure(BadCertificate); }
      match entry.kind {
        case ARK =>
          if ark.Some? { return Failure(MoreThanOne(ARK)); }
          ark := cert;
        case ASK =>
          if ask.Some? { return Failure(MoreThanOne(ASK)); }
          ask := cert;
        case VCEK =>
          if vcek.Some? { return Failure(MoreThanOne(VCEK)); }
          vcek := cert;
        case VLEK =>
          if vlek.Some? { return Failure(MoreThanOne(VLEK)); }
          vlek := cert;
        case _ =>
      }
    }
    assert entries[..|entries|] == entries;
    if ark.None? { return Failure(NotFound(ARK)); }
    if ask.None? { return Failure(NotFound(ASK)); }
    if vcek.None? && vlek.None? { return Failure(NoVek); }
    var vek := if vlek.Some? then vlek.value else vcek.value;
    r := Success(Chain(ark.value, ask.value, vek));
  }

  // ---------- exactness ----------

  function Count(entries: seq<CertEntry>, kind: CertType): nat
    decreases |entries|
  {
    if entries == [] then 0
    else Count(entries[..|entries|-1], kind) + (if entries[|entries|-1].kind == kind then 1 else 0)
  }

  predicate Slotted(kind: CertType) { kind.ARK? || kind.ASK? || kind.VCEK? || kind.VLEK? }

  ghost predicate AllDecode<C>(decode: Decoder<C>, entries: seq<CertEntry>) {
    forall e :: e in entries ==> decode(e.data).Some?
  }

  ghost predicate NoDuplicates(entries: seq<CertEntry>) {
    forall kind :: Slotted(kind) ==> Count(entries, kind) <= 1
  }

  /** What a table must contain to make a chain. */
  ghost predicate Complete<C>(decode: Decoder<C>, entries: seq<CertEntry>) {
    && AllDecode(decode, entries) && NoDuplicates(entries)
    && Count(entries, ARK) == 1 && Count(entries, ASK) == 1
    && Count(entries, VCEK) + Count(entries, VLEK) >= 1
  }

  /** The chain made of the certificates in a table, whatever their order; the VLEK counts
      even when there is a VCEK. */
  ghost predicate MadeFrom<C>(decode: Decoder<C>, entries: seq<CertEntry>, chain: Chain<C>) {
    forall e :: e in entries ==>
      && (e.kind.ARK? ==> decode(e.data) == Some(chain.ark))
      && (e.kind.ASK? ==> decode(e.data) == Some(chain.ask))
      && (e.kind.VLEK? || (e.kind.VCEK? && Count(entries, VLEK) == 0) ==> decode(e.data) == Some(chain.vek))
  }

  lemma {:induction false} CountIn(entries: seq<CertEntry>, kind: CertType)
    ensures Count(entries, kind) > 0 <==> exists e :: e in entries && e.kind == kind
    decreases |entries|
  {
    if entries != [] {
      var front, e := entries[..|entries|-1], entries[|entries|-1];
      CountIn(front, kind);
      assert entries == front + [e];
    }
  }

  ghost predicate Filled<C>(decode: Decoder<C>, entries: seq<CertEntry>, slots: Slots<C>) {
    && (forall kind :: Slotted(kind) ==> (slots.Get(kind).Some? <==> Count(entries, kind) == 1))
    && (forall e :: e in entries && Slotted(e.kind) ==> slots.Get(e.kind) == decode(e.data))
  }

  lemma CountSnoc(front: seq<CertEntry>, e: CertEntry, kind: CertType)
    ensures Count(front + [e], kind) == Count(front, kind) + (if e.kind == kind then 1 else 0)
  {
    assert (front + [e])[..|front|] == front;
  }

  lemma NoDuplicatesSnoc(front: seq<CertEntry>, e: CertEntry)
    ensures NoDuplicates(front + [e]) <==> NoDuplicates(front) && (Slotted(e.kind) ==> Count(front, e.kind) == 0)
  {
    forall kind ensures Count(front + [e], kind) == Count(front, kind) + (if e.kind == kind then 1 else 0) {
      CountSnoc(front, e, kind);
    }
  }

  lemma FilledSnoc<C>(decode: Decoder<C>, front: seq<CertEntry>, e: CertEntry, slots: Slots<C>)
    requires Filled(decode, front, slots) && NoDuplicates(front)
    requires Add(decode, slots, e).Success?
    ensures Filled(decode, front + [e], Add(decode, slots, e).value)
  {
    forall kind ensures Count(front + [e], kind) == Count(front, kind) + (if e.kind == kind then 1 else 0) {
      CountSnoc(front, e, kind);
    }
    CountIn(front, e.kind);
  }

  lemma {:induction false} CollectIs<C>(decode: Decoder<C>, entries: seq<CertEntry>)
    ensures Collect(decode, entries).Success? <==> AllDecode(decode, entries) && NoDuplicates(entries)
    ensures Collect(decode, entries).Success? ==> Filled(decode, entries, Collect(decode, entries).value)
    decreases |entries|
  {
    if entries != [] {
      var front, e := entries[..|entries|-1], entries[|entries|-1];
      assert entries == front + [e];
      CollectIs(decode, front);
      NoDuplicatesSnoc(front, e);
      AllDecodeSnoc(decode, front, e);
      if Collect(decode, front).Success? {
        CountIn(front, e.kind);
        if Add(decode, Collect(decode, front).value, e).Success? {
          FilledSnoc(decode, front, e, Collect(decode, front).value);
        }
      }
    }
  }

  lemma AllDecodeSnoc<C>(decode: Decoder<C>, front: seq<CertEntry>, e: CertEntry)
    ensures AllDecode(decode, front + [e]) <==> AllDecode(decode, front) && decode(e.data).Some?
  {
    assert e in front + [e] && forall x :: x in front ==> x in front + [e];
  }

  /** A chain is built if and only if the table is complete, and it is the one made of the
      table's certificates. */
  lemma ChainExact<C>(decode: Decoder<C>, entries: seq<CertEntry>)
    ensures ChainOf(decode, entries).Success? <==> Complete(decode, entries)
    ensures ChainOf(decode, entries).Success? ==> MadeFrom(decode, entries, ChainOf(decode, entries).value)
  {
    CollectIs(decode, entries);
  }

  // ---------- errors ----------

  ghost predicate Earlier(entries: seq<CertEntry>, i: nat)
    requires i < |entries|
  {
    exists j :: 0 <= j < i && entries[j].kind == entries[i].kind
  }

  /** What is wrong with entry `i`: its certificate does not decode, or an entry before it has
      the same of the four types. */
  ghost function FaultAt<C>(decode: Decoder<C>, entries: seq<CertEntry>, i: nat): Option<ChainError>
    requires i < |entries|
  {
    if decode(entries[i].data).None? then Some(BadCertificate)
    else if entries[i].kind in {ARK, ASK, VCEK, VLEK} && Earlier(entries, i) then Some(MoreThanOne(entries[i].kind))
    else None
  }

  ghost predicate FirstFault<C>(decode: Decoder<C>, entries: seq<CertEntry>, i: nat)
    requires i < |entries|
  {
    FaultAt(decode, entries, i).Some? && forall j :: 0 <= j < i ==> FaultAt(decode, entries, j).None?
  }

  lemma FaultInFront<C>(decode: Decoder<C>, front: seq<CertEntry>, e: CertEntry, i: nat)
    requires i < |front|
    ensures FaultAt(decode, front + [e], i) == FaultAt(decode, front, i)
  {
    assert forall j :: 0 <= j <= i ==> (front + [e])[j] == front[j];
    assert Earlier(front + [e], i) == Earlier(front, i);
  }

  lemma FaultAtEnd<C>(decode: Decoder<C>, front: seq<CertEntry>, e: CertEntry, slots: Slots<C>)
    requires Collect(decode, front) == Success(slots)
    ensures FaultAt(decode, front + [e], |front|) ==
            if Add(decode, slots, e).Failure? then Some(Add(decode, slots, e).error) else None
  {
    CollectIs(decode, front);
    CountIn(front, e.kind);
    var all := front + [e];
    assert forall j :: 0 <= j < |front| ==> all[j] == front[j];
    assert Earlier(all, |front|) <==> exists x :: x in front && x.kind == e.kind;
  }

  /** Collecting stops at the first entry with a fault. */
  lemma {:induction false} CollectFaults<C>(decode: Decoder<C>, entries: seq<CertEntry>)
    ensures Collect(decode, entries).Success? ==> forall i :: 0 <= i < |entries| ==> FaultAt(decode, entries, i).None?
    ensures Collect(decode, entries).Failure? ==>
              exists i :: 0 <= i < |entries| && FirstFault(decode, entries, i)
                && Collect(decode, entries).error == FaultAt(decode, entries, i).value
    decreases |entries|
  {
    if entries != [] {
      var front, e := entries[..|entries|-1], entries[|entries|-1];
      assert entries == front + [e];
      CollectFaults(decode, front);
      forall i | 0 <= i < |front| ensures FaultAt(decode, entries, i) == FaultAt(decode, front, i) {
        FaultInFront(decode, front, e, i);
      }
      if Collect(decode, front).Success? {
        FaultAtEnd(decode, front, e, Collect(decode, front).value);
        assert Collect(decode, entries).Failure? ==> FirstFault(decode, entries, |front|);
      } else {
        var i :| 0 <= i < |front| && FirstFault(decode, front, i)
                 && Collect(decode, front).error == FaultAt(decode, front, i).value;
        assert FirstFault(decode, entries, i);
      }
    }
  }

  ghost predicate Lacks(entries: seq<CertEntry>, kind: CertType) { forall e :: e in entries ==> e.kind != kind }

  /** The error of every table that makes no chain: that of the first entry with a fault, and
      without one, the first of ARK, ASK and VEK that is missing. */
  lemma ErrorExact<C>(decode: Decoder<C>, entries: seq<CertEntry>)
    ensures forall i :: 0 <= i < |entries| && FirstFault(decode, entries, i) ==>
              ChainOf(decode, entries) == Failure(FaultAt(decode, entries, i).value)
    ensures (forall i :: 0 <= i < |entries| ==> FaultAt(decode, entries, i).None?) ==>
              (ChainOf(decode, entries).Failure? <==>
                 Lacks(entries, ARK) || Lacks(entries, ASK) || (Lacks(entries, VCEK) && Lacks(entries, VLEK)))
              && (ChainOf(decode, entries).Failure? ==>
                    ChainOf(decode, entries).error ==
                    if Lacks(entries, ARK) then NotFound(ARK) else if Lacks(entries, ASK) then NotFound(ASK) else NoVek)
  {
    CollectFaults(decode, entries);
    CollectIs(decode, entries);
    CountIn(entries, ARK);
    CountIn(entries, ASK);
    CountIn(entries, VCEK);
    CountIn(entries, VLEK);
    forall i | 0 <= i < |entries| && FirstFault(decode, entries, i)
      ensures ChainOf(decode, entries) == Failure(FaultAt(decode, entries, i).value)
    {
      var k :| 0 <= k < |entries| && FirstFault(decode, entries, k)
               && Collect(decode, entries).error == FaultAt(decode, entries, k).value;
      assert !(i < k) && !(k < i);
    }
  }

  // ---------- order independence ----------

  function Without(entries: seq<CertEntry>, i: nat): seq<CertEntry>
    requires i < |entries|
  {
    entries[..i] + entries[i + 1..]
  }

  lemma WithoutLast(front: seq<CertEntry>, e: CertEntry, i: nat)
    requires i <= |front|
    ensures Without(front + [e], i) == if i == |front| then front else Without(front, i) + [e]
  {
    if i < |front| {
      Assoc(front[..i], front[i + 1..], [e]);
      assert (front + [e])[..i] == front[..i] && (front + [e])[i + 1..] == front[i + 1..] + [e];
    }
  }

  lemma {:induction false} CountWithout(entries: seq<CertEntry>, i: nat, kind: CertType)
    requires i < |entries|
    ensures Count(entries, kind) == Count(Without(entries, i), kind) + (if entries[i].kind == kind then 1 else 0)
    decreases |entries|
  {
    var front, last := entries[..|entries|-1], entries[|entries|-1];
    assert entries == front + [last];
    WithoutLast(front, last, i);
    CountSnoc(front, last, kind);
    if i < |front| {
      CountWithout(front, i, kind);
      CountSnoc(Without(front, i), last, kind);
    }
  }

  lemma MultisetWithout(entries: seq<CertEntry>, i: nat)
    requires i < |entries|
    ensures multiset(Without(entries, i)) == multiset(entries) - multiset{entries[i]}
  {
    assert entries == entries[..i] + [entries[i]] + entries[i + 1..];
  }

  lemma Find(entries: seq<CertEntry>, e: CertEntry) returns (i: nat)
    requires e in multiset(entries)
    ensures i < |entries| && entries[i] == e
  {
    i :| i < |entries| && entries[i] == e;
  }

  lemma {:induction false} CountPermuted(a: seq<CertEntry>, b: seq<CertEntry>, kind: CertType)
    requires multiset(a) == multiset(b)
    ensures Count(a, kind) == Count(b, kind)
    decreases |a|
  {
    if a == [] {
      assert |multiset(b)| == 0;
    } else {
      var front, e := a[..|a|-1], a[|a|-1];
      MultisetWithout(a, |a|-1);
      assert Without(a, |a|-1) == front;
      assert multiset(a)[e] > 0;
      var i := Find(b, e);
      MultisetWithout(b, i);
      CountPermuted(front, Without(b, i), kind);
      CountWithout(b, i, kind);
    }
  }

  lemma SameMembers(a: seq<CertEntry>, b: seq<CertEntry>)
    requires multiset(a) == multiset(b)
    ensures forall e :: e in a <==> e in b
  {
    assert forall e :: e in a <==> e in multiset(a);
    assert forall e :: e in b <==> e in multiset(b);
  }

  lemma OneChain<C>(decode: Decoder<C>, entries: seq<CertEntry>, x: Chain<C>, y: Chain<C>)
    requires Complete(decode, entries) && MadeFrom(decode, entries, x) && MadeFrom(decode, entries, y)
    ensures x == y
  {
    CountIn(entries, ARK);
    CountIn(entries, ASK);
    CountIn(entries, VLEK);
    CountIn(entries, VCEK);
  }

  /** Every ordering of a table, the sorted one included, gives the same chain or none. */
  lemma OrderIndependent<C>(decode: Decoder<C>, a: seq<CertEntry>, b: seq<CertEntry>)
    requires multiset(a) == multiset(b)
    ensures ChainOf(decode, a).Success? <==> ChainOf(decode, b).Success?
    ensures ChainOf(decode, a).Success? ==> ChainOf(decode, a) == ChainOf(decode, b)
  {
    SameMembers(a, b);
    forall kind ensures Count(a, kind) == Count(b, kind) { CountPermuted(a, b, kind); }
    ChainExact(decode, a);
    ChainExact(decode, b);
    if ChainOf(decode, a).Success? {
      OneChain(decode, a, ChainOf(decode, a).value, ChainOf(decode, b).value);
    }
  }

  // ---------- chains of tables that come from the kernel ----------

  /** Entries that the loop treats alike. */
  predicate Alike(a: CertEntry, b: CertEntry) {
    a.data == b.data && (a.kind == b.kind || (!Slotted(a.kind) && !Slotted(b.kind)))
  }

  lemma AddAlike<C>(decode: Decoder<C>, slots: Slots<C>, a: CertEntry, b: CertEntry)
    requires Alike(a, b)
    ensures Add(decode, slots, a) == Add(decode, slots, b)
  {
  }

  lemma {:induction false} CollectAlike<C>(decode: Decoder<C>, a: seq<CertEntry>, b: seq<CertEntry>)
    requires |a| == |b| && forall i :: 0 <= i < |a| ==> Alike(a[i], b[i])
    ensures Collect(decode, a) == Collect(decode, b)
    decreases |a|
  {
    if a != [] {
      CollectAlike(decode, a[..|a|-1], b[..|b|-1]);
      if Collect(decode, a[..|a|-1]).Success? {
        AddAlike(decode, Collect(decode, a[..|a|-1]).value, a[|a|-1], b[|b|-1]);
      }
    }
  }

  /** An entry that the trip neither drops nor moves into another slot: its GUID is not nil and
      it does not hide the GUID of a slot under OTHER. */
  predicate KeepsSlot(e: CertEntry) {
    e.kind.Guid() != NIL && (e.kind.OTHER? ==> !Slotted(TypeOf(e.kind.guid)))
  }

  lemma NormalAlike(e: CertEntry)
    requires KeepsSlot(e)
    ensures Normal(e).Some? && Alike(e, Normal(e).value)
  {
    GuidRoundTrip(e.kind, e.kind.Guid());
  }

  lemma {:induction false} NormalFormAlike(t: seq<CertEntry>)
    requires forall e :: e in t ==> KeepsSlot(e)
    ensures |NormalForm(t)| == |t| && forall i :: 0 <= i < |t| ==> Alike(t[i], NormalForm(t)[i])
  {
    if t != [] {
      NormalAlike(t[0]);
      NormalFormAlike(t[1..]);
      forall i | 0 <= i < |t| ensures i < |NormalForm(t)| && Alike(t[i], NormalForm(t)[i]) {
        assert i > 0 ==> t[i] == t[1..][i - 1] && NormalForm(t)[i] == NormalForm(t[1..])[i - 1];
      }
    }
  }

  /** The chain of a table that has gone through the kernel format is that of its normal form;
      it is the original chain wherever no entry has a nil GUID or hides a slot under OTHER. */
  lemma ChainThroughTable<C>(decode: Decoder<C>, entries: seq<CertEntry>, mem: Bytes)
    requires Fits(entries) && Holds(mem, 0, Encode(entries))
    ensures ParseFrom(mem, 0).Success?
    ensures ChainOf(decode, ParseFrom(mem, 0).value) == ChainOf(decode, NormalForm(entries))
    ensures (forall e :: e in entries ==> KeepsSlot(e)) ==>
              ChainOf(decode, ParseFrom(mem, 0).value) == ChainOf(decode, entries)
  {
    RoundTrip(entries, mem);
    if forall e :: e in entries ==> KeepsSlot(e) {
      NormalFormAlike(entries);
      CollectAlike(decode, entries, NormalForm(entries));
    }
  }

  /** Elsewhere the trip can change the chain: an ARK hidden under OTHER is found only after it. */
  lemma HiddenArk<C>(decode: Decoder<C>, ask: Bytes, vcek: Bytes, ark: Bytes)
    requires decode(ask).Some? && decode(vcek).Some? && decode(ark).Some?
    ensures var t := [CertEntry(ASK, ask), CertEntry(VCEK, vcek), CertEntry(OTHER(ARK_GUID), ark)];
            && ChainOf(decode, t) == Failure(NotFound(ARK))
            && ChainOf(decode, NormalForm(t)) == Success(Chain(decode(ark).value, decode(ask).value, decode(vcek).value))
  {
    var a, b, c := CertEntry(ASK, ask), CertEntry(VCEK, vcek), CertEntry(OTHER(ARK_GUID), ark);
    var c' := CertEntry(ARK, ark);
    GuidRoundTrip(ASK, ASK_GUID);
    GuidRoundTrip(VCEK, VCEK_GUID);
    GuidRoundTrip(ARK, ARK_GUID);
    assert NormalForm([a, b, c]) == [a, b, c'] by {
      assert [a, b, c][1..] == [b, c] && [b, c][1..] == [c] && [c][1..] == [];
      assert NormalForm([c]) == [c'];
      assert NormalForm([b, c]) == [b, c'];
    }
    CollectThree(decode, a, b, c);
    CollectThree(decode, a, b, c');
  }

  lemma CollectThree<C>(decode: Decoder<C>, a: CertEntry, b: CertEntry, c: CertEntry)
    requires a.kind == ASK && b.kind == VCEK && !c.kind.ASK? && !c.kind.VCEK?
    requires decode(a.data).Some? && decode(b.data).Some? && decode(c.data).Some?
    ensures Collect(decode, [a, b, c]) ==
            Success(Slots(None, decode(a.data), decode(b.data), None).Put(c.kind, decode(c.data).value))
  {
    assert [a, b, c][..2] == [a, b] && [a, b][..1] == [a] && [a][..0] == [];
    assert Collect(decode, [a]) == Success(Slots(None, decode(a.data), None, None));
    assert Collect(decode, [a, b]) == Success(Slots(None, decode(a.data), decode(b.data), None));
  }
}
