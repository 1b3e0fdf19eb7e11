/** Message authentication as the session uses it: a signer that is fed step by step.  HMAC is
    an arbitrary function of key and message. */
module Macs {
  import opened ByteStrings

  const MAC_SIZE := 32

  type Mac = s: Bytes | |s| == MAC_SIZE witness Zeros(MAC_SIZE)
  type Hmac = (Bytes, Bytes) -> Mac

  class Signer {
    const hmac: Hmac
    const key: Bytes
    var fed: Bytes

    constructor (hmac: Hmac, key: Bytes)
      ensures this.hmac == hmac && this.key == key && fed == []
    {
      this.hmac, this.key, this.fed := hmac, key, [];
    }

    method Update(data: Bytes)
      modifies this
      ensures fed == old(fed) + data
    {
      fed := fed + data;
    }

    function Sign(): Mac
      reads this
    {
      hmac(key, fed)
    }
  }
}

/** Key derivation in counter mode (section 5.1 of NIST SP 800-108). */
module KeyDerivation {
  import opened ByteStrings
  import opened Outcomes
  import opened Macs

  datatype KeyError = InvalidInput

  /** The message of one block: counter, label, a zero byte, context, length in bits. */
  function Message(counter: nat, purpose: Bytes, ctx: Bytes, bits: nat): Bytes {
    LeBytes(counter, 4) + purpose + [0] + ctx + LeBytes(bits, 4)
  }

  function Block(hmac: Hmac, key: Bytes, counter: nat, purpose: Bytes, ctx: Bytes, bits: nat): Mac {
    hmac(key, Message(counter, purpose, ctx, bits))
  }

  /** Byte `j` of the derived key is byte `j % 32` of block `j / 32 + 1`. */
  function DerivedByte(hmac: Hmac, key: Bytes, size: nat, ctx: Bytes, purpose: Bytes, j: nat): Byte {
    Block(hmac, key, j / MAC_SIZE + 1, purpose, ctx, size * 8)[j % MAC_SIZE]
  }

  function Derived(hmac: Hmac, key: Bytes, size: nat, ctx: Bytes, purpose: Bytes): (s: Bytes)
    ensures |s| == size
  {
    seq(size, j requires 0 <= j < size => DerivedByte(hmac, key, size, ctx, purpose, j))
  }

  method BlockStep(hmac: Hmac, key: Bytes, counter: U32, purpose: Bytes, ctx: Bytes, bits: U32) returns (block: Mac)
    ensures block == Block(hmac, key, counter, purpose, ctx, bits)
  {
    var sig := new Signer(hmac, key);
    sig.Update(LeBytes(counter, 4));
    sig.Update(purpose);
    sig.Update([0]);
    sig.Update(ctx);
    sig.Update(LeBytes(bits, 4));
    assert [] + LeBytes(counter, 4) == LeBytes(counter, 4);
    block := sig.Sign();
  }

  /** A signature written to the front of a slice of the buffer. */
  method WriteFront(out: array<Byte>, start: nat, block: Mac)
    requires start + MAC_SIZE <= out.Length
    modifies out
    ensures forall j :: 0 <= j < MAC_SIZE ==> out[start + j] == block[j]
    ensures forall j :: 0 <= j < start ==> out[j] == old(out[j])
  {
    for j := 0 to MAC_SIZE
      invariant forall k :: 0 <= k < j ==> out[start + k] == block[k]
      invariant forall k :: 0 <= k < start ==> out[k] == old(out[k])
    {
      out[start + j] := block[j];
    }
  }

  lemma Quotient(j: nat, i: nat)
    requires MAC_SIZE * i <= j < MAC_SIZE * (i + 1)
    ensures j / MAC_SIZE == i && j % MAC_SIZE == j - MAC_SIZE * i
  {
  }

  /** `Key::derive`: blocks are written through a slice that shrinks from the front.  The
      slice always has room for one more block and the counter never leaves 32 bits. */
  method Derive(hmac: Hmac, key: Bytes, size: nat, ctx: Bytes, purpose: Bytes) returns (r: Result<Bytes, KeyError>)
    requires size * 8 < U64_LIMIT
    ensures size * 8 < 0x1_0000_0000 ==> r == Success(Derived(hmac, key, size, ctx, purpose))
    ensures size * 8 >= 0x1_0000_0000 ==> r == Failure(InvalidInput)
  {
    if size * 8 >= 0x1_0000_0000 { return Failure(InvalidInput); }
    var blocks := (size + 32 - 1) / 32;
    var out := new Byte[blocks * 32](_ => 0);
    var start := 0;
    for i := 1 to blocks + 1
      invariant start == MAC_SIZE * (i - 1)
      invariant forall j :: 0 <= j < start ==>
                  out[j] == Block(hmac, key, j / MAC_SIZE + 1, purpose, ctx, size * 8)[j % MAC_SIZE]
    {
      var block := BlockStep(hmac, key, i, purpose, ctx, size * 8);
      WriteFront(out, start, block);
      forall j | start <= j < start + MAC_SIZE
        ensures out[j] == Block(hmac, key, j / MAC_SIZE + 1, purpose, ctx, size * 8)[j % MAC_SIZE]
      {
        Quotient(j, i - 1);
        assert out[start + (j - start)] == block[j - start];
      }
      start := start + 32;
    }
    assert out[..size] == Derived(hmac, key, size, ctx, purpose);
    r := Success(out[..size]);
  }

  /** The input of one block of the derivation, by positions: a four-byte counter, the label, a
      zero byte, the context, and the length in bits in the last four bytes. */
  predicate IsBlockInput(x: Bytes, counter: nat, purpose: Bytes, ctx: Bytes, bits: nat) {
    var n := |purpose|;
    && |x| == 9 + n + |ctx|
    && LeValue(x[0..4]) == counter && x[4..4 + n] == purpose && x[4 + n] == 0
    && x[5 + n..5 + n + |ctx|] == ctx && LeValue(x[5 + n + |ctx|..]) == bits
  }

  lemma BlockInput(counter: U32, purpose: Bytes, ctx: Bytes, bits: U32)
    ensures IsBlockInput(Message(counter, purpose, ctx, bits), counter, purpose, ctx, bits)
  {
    var c, b := LeBytes(counter, 4), LeBytes(bits, 4);
    InputParts(c, purpose, ctx, b);
    Powers();
    LeValueOfBytes(counter, 4);
    LeValueOfBytes(bits, 4);
  }

  lemma InputParts(c: Bytes, p: Bytes, ctx: Bytes, b: Bytes)
    requires |c| == 4 && |b| == 4
    ensures var x, n := c + p + [0] + ctx + b, |p|;
            && |x| == 9 + n + |ctx|
            && x[0..4] == c && x[4..4 + n] == p && x[4 + n] == 0
            && x[5 + n..5 + n + |ctx|] == ctx && x[5 + n + |ctx|..] == b
  {
  }

  /** Byte j of a derived key comes from the block that counts from one, of 32 bytes, and the
      length that is authenticated is eight times the size. */
  lemma DerivedExact(hmac: Hmac, key: Bytes, size: nat, ctx: Bytes, purpose: Bytes, j: nat)
    requires j < size && 8 * size < 0x1_0000_0000
    ensures exists x :: IsBlockInput(x, 1 + j / 32, purpose, ctx, 8 * size)
              && Derived(hmac, key, size, ctx, purpose)[j] == hmac(key, x)[j % 32]
  {
    var x := Message(1 + j / 32, purpose, ctx, 8 * size);
    BlockInput(1 + j / 32, purpose, ctx, 8 * size);
    assert Derived(hmac, key, size, ctx, purpose)[j] == DerivedByte(hmac, key, size, ctx, purpose, j);
    assert Derived(hmac, key, size, ctx, purpose)[j] == hmac(key, x)[j % 32];
  }

  lemma FirstBlock(hmac: Hmac, key: Bytes, size: nat, ctx: Bytes, purpose: Bytes, j: nat)
    requires j < size && j < 32
    ensures Derived(hmac, key, size, ctx, purpose)[j] == hmac(key, Message(1, purpose, ctx, 8 * size))[j]
  {
    Quotient(j, 0);
    assert Derived(hmac, key, size, ctx, purpose)[j] == DerivedByte(hmac, key, size, ctx, purpose, j);
  }

  /** A derivation of 16 bytes is the front half of its one block. */
  lemma OneBlock(hmac: Hmac, key: Bytes, ctx: Bytes, purpose: Bytes)
    ensures exists x :: IsBlockInput(x, 1, purpose, ctx, 128)
              && Derived(hmac, key, 16, ctx, purpose) == hmac(key, x)[0..16]
  {
    var x := Message(1, purpose, ctx, 128);
    BlockInput(1, purpose, ctx, 128);
    forall j | 0 <= j < 16 ensures Derived(hmac, key, 16, ctx, purpose)[j] == hmac(key, x)[j] {
      FirstBlock(hmac, key, 16, ctx, purpose, j);
    }
    assert Derived(hmac, key, 16, ctx, purpose) == hmac(key, x)[0..16];
  }

  predicate NoZero(purpose: Bytes) {
    forall i :: 0 <= i < |purpose| ==> purpose[i] != 0
  }

  /** Labels without a zero byte keep derivations apart: the message determines the counter,
      the label, the context and the length. */
  lemma MessageInjective(i: U32, l: Bytes, c: Bytes, n: U32, i': U32, l': Bytes, c': Bytes, n': U32)
    requires NoZero(l) && NoZero(l') && Message(i, l, c, n) == Message(i', l', c', n')
    ensures i == i' && l == l' && c == c' && n == n'
  {
    var m, m' := l + [0] + c, l' + [0] + c';
    assert Message(i, l, c, n) == LeBytes(i, 4) + (m + LeBytes(n, 4));
    assert Message(i', l', c', n') == LeBytes(i', 4) + (m' + LeBytes(n', 4));
    SplitEqual(LeBytes(i, 4), m + LeBytes(n, 4), LeBytes(i', 4), m' + LeBytes(n', 4));
    SplitEqual(m, LeBytes(n, 4), m', LeBytes(n', 4));
    Powers();
    LeInjective(i, i', 4);
    LeInjective(n, n', 4);
    FirstZero(l, c, l', c');
  }

  lemma ZeroNotBefore(l: Bytes, c: Bytes, k: nat)
    requires NoZero(l) && k < |l + [0] + c| && (l + [0] + c)[k] == 0
    ensures k >= |l|
  {
  }

  lemma FirstZero(l: Bytes, c: Bytes, l': Bytes, c': Bytes)
    requires NoZero(l) && NoZero(l') && l + [0] + c == l' + [0] + c'
    ensures l == l' && c == c'
  {
    assert (l + [0] + c)[|l|] == 0 && (l' + [0] + c')[|l'|] == 0;
    ZeroNotBefore(l', c', |l|);
    ZeroNotBefore(l, c, |l'|);
    SplitEqual(l + [0], c, l' + [0], c');
    SplitEqual(l, [0], l', [0]);
  }
}
