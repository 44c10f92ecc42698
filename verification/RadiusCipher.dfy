/** The hash-chained XOR cipher of RADIUS (section 5.2 of RFC 2865, section 2.4.2 of RFC 2548). */
module RadiusCipher {
  import opened Bytes
  import opened ExclusiveOr

  const BLOCK: nat := 16

  /** An MD5 hasher; it may fail. */
  datatype Hasher = Hasher(hash: bytes -> Option<bytes>) {
    ghost predicate Lawful() {
      forall d :: hash(d).Some? ==> |hash(d).value| == BLOCK
    }
  }

  // ---------------------------------------------------------------- the chain

  function Prepend(done: bytes, rest: Option<bytes>): Option<bytes> {
    match rest
    case None => None
    case Some(r) => Some(done + r)
  }

  /** Every block is masked with the hash of the secret and the previous ciphertext block; when
      encrypting that is the block just written, when decrypting the block just read. */
  function Chain(data: bytes, seed: bytes, secret: bytes, h: Hasher, encrypting: bool): Option<bytes>
    requires |data| % BLOCK == 0
    decreases |data|
  {
    if data == [] then Some([])
    else
      match h.hash(secret + seed)
      case None => None
      case Some(b) =>
        if |b| != BLOCK then None
        else
          var block := Xor(data[..BLOCK], b);
          Prepend(block, Chain(data[BLOCK..], if encrypting then block else data[..BLOCK], secret, h, encrypting))
  }

  lemma PrependTwice(a: bytes, b: bytes, rest: Option<bytes>)
    ensures Prepend(a, Prepend(b, rest)) == Prepend(a + b, rest)
  {
    if rest.Some? {
      assert a + (b + rest.value) == a + b + rest.value;
    }
  }

  lemma ChainStart(data: bytes, seed: bytes, secret: bytes, h: Hasher, encrypting: bool)
    requires |data| % BLOCK == 0
    ensures Prepend([], Chain(data[0..], seed, secret, h, encrypting)) == Chain(data, seed, secret, h, encrypting)
  {
    hide Chain;
    assert data[0..] == data;
    var c := Chain(data, seed, secret, h, encrypting);
    if c.Some? {
      assert [] + c.value == c.value;
    }
  }

  /** One turn of the loop, `done` being what was produced so far. */
  lemma ChainStep(done: bytes, data: bytes, at: nat, seed: bytes, secret: bytes, h: Hasher, encrypting: bool)
    requires |data| % BLOCK == 0 && at % BLOCK == 0 && at < |data| && h.Lawful()
    ensures at + BLOCK <= |data| && (|data| - at) % BLOCK == 0
    ensures match h.hash(secret + seed)
            case None => Prepend(done, Chain(data[at..], seed, secret, h, encrypting)) == None
            case Some(b) =>
              var input := data[at..at + BLOCK];
              var block := Xor(input, b);
              Prepend(done, Chain(data[at..], seed, secret, h, encrypting)) ==
              Prepend(done + block, Chain(data[at + BLOCK..], if encrypting then block else input, secret, h, encrypting))
  {
    var b := h.hash(secret + seed);
    if b.Some? {
      var input := data[at..at + BLOCK];
      var block := Xor(input, b.value);
      assert data[at..][..BLOCK] == input && data[at..][BLOCK..] == data[at + BLOCK..];
      PrependTwice(done, block, Chain(data[at + BLOCK..], if encrypting then block else input, secret, h, encrypting));
    }
  }

  function BlockAt(data: bytes, i: nat): (b: bytes)
    requires BLOCK * i + BLOCK <= |data|
    ensures |b| == BLOCK
  {
    data[BLOCK * i..BLOCK * i + BLOCK]
  }

  lemma BlockShifts(head: bytes, rest: bytes, i: nat)
    requires |head| == BLOCK && i > 0 && BLOCK * i <= |rest|
    ensures BlockAt(head + rest, i) == BlockAt(rest, i - 1)
  {
  }

  lemma {:induction false} ChainLength(data: bytes, seed: bytes, secret: bytes, h: Hasher, encrypting: bool)
    requires |data| % BLOCK == 0 && Chain(data, seed, secret, h, encrypting).Some?
    ensures |Chain(data, seed, secret, h, encrypting).value| == |data|
    decreases |data|
  {
    if data != [] {
      var block := Xor(data[..BLOCK], h.hash(secret + seed).value);
      ChainLength(data[BLOCK..], if encrypting then block else data[..BLOCK], secret, h, encrypting);
    }
  }

  /** c(i) = p(i) xor H(S, c(i-1)), with the authenticator and salt in place of c(0). */
  lemma {:induction false} ChainBlocks(p: bytes, seed: bytes, secret: bytes, h: Hasher, i: nat)
    requires |p| % BLOCK == 0 && BLOCK * i + BLOCK <= |p| && Chain(p, seed, secret, h, true).Some?
    ensures var c := Chain(p, seed, secret, h, true).value;
            && |c| == |p|
            && var mask := h.hash(secret + if i == 0 then seed else BlockAt(c, i - 1));
               mask.Some? && |mask.value| == BLOCK && BlockAt(c, i) == Xor(BlockAt(p, i), mask.value)
    decreases |p|
  {
    ChainLength(p, seed, secret, h, true);
    var c := Chain(p, seed, secret, h, true).value;
    var block := Xor(p[..BLOCK], h.hash(secret + seed).value);
    var rest := Chain(p[BLOCK..], block, secret, h, true).value;
    assert c == block + rest;
    if i == 0 {
      assert c[..BLOCK] == block;
    } else {
      ChainBlocks(p[BLOCK..], block, secret, h, i - 1);
      BlockShifts(block, rest, i);
      BlockShifts(p[..BLOCK], p[BLOCK..], i);
      assert p[..BLOCK] + p[BLOCK..] == p;
      if i > 1 {
        BlockShifts(block, rest, i - 1);
      } else {
        assert c[..BLOCK] == block;
      }
    }
  }

  /** The mask of block `i`: H(S, c(i-1)), with the authenticator and salt in place of c(0). */
  function MaskOf(c: bytes, seed: bytes, secret: bytes, h: Hasher, i: nat): Option<bytes>
    requires BLOCK * i <= |c|
  {
    h.hash(secret + if i == 0 then seed else c[BLOCK * (i - 1)..BLOCK * i])
  }

  /** A bit of the ciphertext is set exactly when the bits of plaintext and mask differ, and a block
      comes out as it went in exactly when its mask is all zeroes. */
  lemma EncryptionFormula(p: bytes, seed: bytes, secret: bytes, h: Hasher, i: nat)
    requires |p| % BLOCK == 0 && BLOCK * i + BLOCK <= |p| && Chain(p, seed, secret, h, true).Some?
    ensures var c := Chain(p, seed, secret, h, true).value;
            && |c| == |p|
            && var mask := MaskOf(c, seed, secret, h, i);
               && mask.Some? && |mask.value| == BLOCK
               && (forall j, d | 0 <= j < BLOCK && BitValue(d) ::
                     BlockAt(c, i)[j] / d % 2 == 1 <==> BlockAt(p, i)[j] / d % 2 != mask.value[j] / d % 2)
               && (BlockAt(c, i) == BlockAt(p, i) <==> mask.value == Zeros(BLOCK))
  {
    ChainBlocks(p, seed, secret, h, i);
    var c := Chain(p, seed, secret, h, true).value;
    var mask := MaskOf(c, seed, secret, h, i).value;
    XorBitByBit(BlockAt(p, i), mask);
    XorFixed(BlockAt(p, i), mask);
    hide Chain;
    hide Xor;
    hide BlockAt;
  }

  /** The first block, and the rest under the next seed. */
  lemma ChainCons(head: bytes, tail: bytes, seed: bytes, secret: bytes, h: Hasher, encrypting: bool)
    requires |head| == BLOCK && |tail| % BLOCK == 0
    ensures var b := h.hash(secret + seed);
            Chain(head + tail, seed, secret, h, encrypting) ==
            if b.None? || |b.value| != BLOCK then None
            else Prepend(Xor(head, b.value),
                         Chain(tail, if encrypting then Xor(head, b.value) else head, secret, h, encrypting))
  {
    hide Xor;
    assert (head + tail)[..BLOCK] == head && (head + tail)[BLOCK..] == tail;
  }

  /** Each direction undoes the other, for any number of blocks. */
  lemma {:induction false} ChainUndone(data: bytes, seed: bytes, secret: bytes, h: Hasher, encrypting: bool)
    requires |data| % BLOCK == 0 && Chain(data, seed, secret, h, encrypting).Some?
    ensures var other := Chain(data, seed, secret, h, encrypting).value;
            |other| == |data| && Chain(other, seed, secret, h, !encrypting) == Some(data)
    decreases |data|
  {
    hide Xor;
    ChainLength(data, seed, secret, h, encrypting);
    if data != [] {
      var head, tail := data[..BLOCK], data[BLOCK..];
      Rejoin(data, BLOCK);
      ChainCons(head, tail, seed, secret, h, encrypting);
      hide Chain;
      var b := h.hash(secret + seed).value;
      var block := Xor(head, b);
      var next := if encrypting then block else head;
      var rest := Chain(tail, next, secret, h, encrypting).value;
      XorCancel(head, b);
      ChainUndone(tail, next, secret, h, encrypting);
      ChainCons(block, rest, seed, secret, h, !encrypting);
    }
  }

  // ---------------------------------------------------------------- in place or not

  /** Lengths the cipher works on. */
  predicate Blocks(n: nat) {
    n % BLOCK == 0 && n >= BLOCK
  }

  method XorInto(a: array<byte>, at: nat, b: bytes)
    requires |b| == BLOCK && at + BLOCK <= a.Length
    modifies a
    ensures a[..] == old(a[..at]) + Xor(old(a[at..at + BLOCK]), b) + old(a[at + BLOCK..])
  {
    forall i | 0 <= i < BLOCK {
      a[at + i] := XorByte(a[at + i], b[i]);
    }
  }

  lemma OneBlock(done: bytes, data: bytes, at: nat, block: bytes)
    requires |done| == at && at + BLOCK <= |data| && |block| == BLOCK
    ensures var now := done + data[at..];
            && now[at..at + BLOCK] == data[at..at + BLOCK]
            && now[..at] + block + now[at + BLOCK..] == done + block + data[at + BLOCK..]
            && (done + block + data[at + BLOCK..])[at..at + BLOCK] == block
  {
  }

  lemma ChainEnd(done: bytes, data: bytes, seed: bytes, secret: bytes, h: Hasher, encrypting: bool)
    ensures Prepend(done, Chain(data[|data|..], seed, secret, h, encrypting)) == Some(done)
    ensures done + data[|data|..] == done
  {
  }

  /** One block: mask the output, then take the next seed from the input. */
  method Round(input: array<byte>, output: array<byte>, at: nat, b: bytes, ghost done: bytes, ghost data: bytes)
      returns (seed: bytes)
    requires input.Length == output.Length == |data| && |done| == at && at + BLOCK <= |data| && |b| == BLOCK
    requires output[..] == done + data[at..] && (input != output ==> input[..] == data)
    modifies output
    ensures var block := Xor(data[at..at + BLOCK], b);
            && output[..] == done + block + data[at + BLOCK..]
            && seed == if input == output then block else data[at..at + BLOCK]
    ensures input != output ==> input[..] == data
  {
    hide Xor;
    OneBlock(done, data, at, Xor(data[at..at + BLOCK], b));
    ghost var now := output[..];
    assert now[at..at + BLOCK] == output[at..at + BLOCK] && now[at + BLOCK..] == output[at + BLOCK..];
    XorInto(output, at, b);
    seed := input[..][at..at + BLOCK];
  }

  method Copy(input: array<byte>, output: array<byte>)
    requires input.Length == output.Length
    modifies output
    ensures output[..] == old(input[..]) && (input != output ==> input[..] == old(input[..]))
  {
    if input != output {
      forall i | 0 <= i < input.Length {
        output[i] := input[i];
      }
    }
  }

  /** `done` is what the blocks before `at` became, and `seed` is what the next one is masked with. */
  ghost predicate OnTrack(data: bytes, first: bytes, secret: bytes, h: Hasher, encrypting: bool,
                          done: bytes, at: nat, seed: bytes) {
    && |data| % BLOCK == 0 && at <= |data| && at % BLOCK == 0 && |done| == at
    && Chain(data, first, secret, h, encrypting) == Prepend(done, Chain(data[at..], seed, secret, h, encrypting))
  }

  lemma TrackStep(data: bytes, first: bytes, secret: bytes, h: Hasher, encrypting: bool, done: bytes, at: nat, seed: bytes)
    requires h.Lawful() && OnTrack(data, first, secret, h, encrypting, done, at, seed) && at < |data|
    ensures at + BLOCK <= |data| && |done| == at
    ensures match h.hash(secret + seed)
            case None => Chain(data, first, secret, h, encrypting) == None
            case Some(b) =>
              && |b| == BLOCK
              && var block := Xor(data[at..at + BLOCK], b);
                 OnTrack(data, first, secret, h, encrypting, done + block, at + BLOCK,
                         if encrypting then block else data[at..at + BLOCK])
  {
    hide Chain;
    hide Xor;
    hide Prepend;
    ChainStep(done, data, at, seed, secret, h, encrypting);
  }

  lemma TrackEnd(data: bytes, first: bytes, secret: bytes, h: Hasher, encrypting: bool, done: bytes, seed: bytes)
    requires OnTrack(data, first, secret, h, encrypting, done, |data|, seed)
    ensures Chain(data, first, secret, h, encrypting) == Some(done) && done + data[|data|..] == done
  {
    ChainEnd(done, data, seed, secret, h, encrypting);
  }

  /** All blocks in turn. */
  method Rounds(first: bytes, input: array<byte>, output: array<byte>, secret: bytes, h: Hasher, ghost data: bytes)
      returns (ok: bool)
    requires h.Lawful() && input.Length == output.Length == |data| && |data| % BLOCK == 0
    requires output[..] == data && (input != output ==> input[..] == data)
    modifies output
    ensures match Chain(data, first, secret, h, input == output)
            case None => !ok
            case Some(result) => ok && output[..] == result
    ensures input != output ==> input[..] == data
  {
    hide Chain;
    hide Xor;
    ghost var encrypting := input == output;
    ChainStart(data, first, secret, h, encrypting);
    var seed, at := first, 0;
    ghost var done: bytes := [];
    assert OnTrack(data, first, secret, h, encrypting, done, at, seed);
    assert data == done + data[at..];
    hide OnTrack;
    while at < input.Length
      invariant at <= input.Length && OnTrack(data, first, secret, h, encrypting, done, at, seed)
      invariant input != output ==> input[..] == data
      invariant output[..] == done + data[at..]
      decreases input.Length - at
    {
      TrackStep(data, first, secret, h, encrypting, done, at, seed);
      match h.hash(secret + seed)
      case None => return false;
      case Some(b) =>
        seed := Round(input, output, at, b, done, data);
        done := done + Xor(data[at..at + BLOCK], b);
        at := at + BLOCK;
    }
    TrackEnd(data, first, secret, h, encrypting, done, seed);
    return true;
  }

  /** `crypt`: with one buffer it encrypts, with two it decrypts, because the seed of the next block
      is read from the input after the output was written. */
  method Crypt(authenticator: bytes, salt: bytes, input: array<byte>, output: array<byte>, secret: bytes, h: Hasher)
      returns (ok: bool)
    requires h.Lawful()
    modifies output
    ensures input.Length != output.Length || !Blocks(input.Length) ==> !ok && output[..] == old(output[..])
    ensures input.Length == output.Length && Blocks(input.Length) ==>
              match Chain(old(input[..]), authenticator + salt, secret, h, input == output)
              case None => !ok
              case Some(result) => ok && output[..] == result
    ensures input != output ==> input[..] == old(input[..])
  {
    if input.Length != output.Length || !Blocks(input.Length) {
      return false;
    }
    hide Chain;
    ghost var data := input[..];
    Copy(input, output);
    ok := Rounds(authenticator + salt, input, output, secret, h, data);
  }

  // ---------------------------------------------------------------- MPPE keys

  /** The first byte of a decrypted key attribute is the length of the key. */
  function KeyIn(plain: bytes): (key: bytes)
    requires plain != []
    ensures if plain[0] as int < |plain| then |key| == plain[0] as int && [plain[0]] + key <= plain else key == []
  {
    if plain[0] as int >= |plain| then [] else plain[1..1 + plain[0] as int]
  }

  /** How a server lays out a key before encrypting it. */
  function KeyText(key: bytes): (plain: bytes)
    requires |key| < 256
    ensures Blocks(|plain|)
  {
    [|key|] + key + Zeros(PadLen(1 + |key|, BLOCK))
  }

  method DecryptMppeKey(authenticator: bytes, salt: bytes, c: array<byte>, secret: bytes, h: Hasher) returns (key: bytes)
    requires h.Lawful()
    ensures key == if !Blocks(c.Length) then []
                   else match Chain(c[..], authenticator + salt, secret, h, false)
                        case None => []
                        case Some(plain) => if plain == [] then [] else KeyIn(plain)
  {
    hide Chain;
    var decrypted := new byte[c.Length];
    var ok := Crypt(authenticator, salt, c, decrypted, secret, h);
    if !ok || decrypted[0] as int >= decrypted.Length {
      return [];
    }
    key := decrypted[1..1 + decrypted[0] as int];
  }

  /** A key encrypted in one buffer is what decryption into another one finds. */
  lemma MppeKeyRecovered(key: bytes, seed: bytes, secret: bytes, h: Hasher)
    requires |key| < 256
    ensures var c := Chain(KeyText(key), seed, secret, h, true);
            c.Some? ==> Blocks(|c.value|) && Chain(c.value, seed, secret, h, false) == Some(KeyText(key)) &&
                        KeyIn(KeyText(key)) == key
    ensures var plain := KeyText(key);
            && plain[0] == |key| && plain[1..1 + |key|] == key && |plain| <= |key| + 16
            && forall i :: 1 + |key| <= i < |plain| ==> plain[i] == 0
  {
    hide PadLen;
    assert KeyText(key)[1..1 + |key|] == key;
    if Chain(KeyText(key), seed, secret, h, true).Some? {
      ChainUndone(KeyText(key), seed, secret, h, true);
    }
  }
}
