/** DMAC: an encrypted CBC-MAC over a padded message, fed in pieces. */
module Dmac {
  import opened Bytes
  import opened Ciphers
  import Numbers
  import Streams
  import opened XorBlocks

  /** One direction of a keyed block cipher: any map on blocks of `size` octets. */
  datatype Cipher = Cipher(size: nat, apply: seq<byte> -> seq<byte>) {
    ghost predicate Valid() {
      size > 0 && BlockFunction(apply, size)
    }
  }

  // ----- CBC-MAC, octet by octet and block by block

  /** The register, and how many of its octets the current block has reached. */
  datatype MacState = MacState(reg: seq<byte>, counter: nat)

  ghost predicate Fits(c: Cipher, s: MacState) {
    c.Valid() && |s.reg| == c.size && s.counter < c.size
  }

  /** One octet: xor it in, and encrypt the register when that completes a block. */
  function AbsorbOctet(c: Cipher, s: MacState, b: byte): MacState
    requires s.counter < |s.reg|
  {
    var reg := s.reg[s.counter := XorByte(s.reg[s.counter], b)];
    if s.counter + 1 == c.size then MacState(c.apply(reg), 0) else MacState(reg, s.counter + 1)
  }

  ghost function Absorb(c: Cipher, s: MacState, m: seq<byte>): (s': MacState)
    requires Fits(c, s)
    ensures Fits(c, s')
    decreases |m|
  {
    if m == [] then s else AbsorbOctet(c, Absorb(c, s, m[..|m| - 1]), m[|m| - 1])
  }

  /** CBC-MAC of whole blocks: reg = E(reg xor block). */
  ghost function Fold(c: Cipher, reg: seq<byte>, m: seq<byte>): (r: seq<byte>)
    requires Fits(c, MacState(reg, 0))
    ensures |r| == c.size
    decreases |m|
  {
    if |m| < c.size then reg else
      var front, block := m[..|m| - c.size], m[|m| - c.size..];
      c.apply(Xor(Fold(c, reg, front), block))
  }

  lemma {:induction false} AbsorbConcat(c: Cipher, s: MacState, a: seq<byte>, b: seq<byte>)
    requires Fits(c, s)
    ensures Absorb(c, s, a + b) == Absorb(c, Absorb(c, s, a), b)
    decreases |b|
  {
    if b == [] {
      assert a + b == a;
    } else {
      assert (a + b)[..|a + b| - 1] == a + b[..|b| - 1];
      AbsorbConcat(c, s, a, b[..|b| - 1]);
    }
  }

  /** Part of a block leaves the xor of that part in the register. */
  lemma {:induction false} AbsorbPart(c: Cipher, reg: seq<byte>, block: seq<byte>, k: nat)
    requires Fits(c, MacState(reg, 0)) && |block| == c.size && k < c.size
    ensures Absorb(c, MacState(reg, 0), block[..k]) == MacState(Xor(reg[..k], block[..k]) + reg[k..], k)
  {
    if k > 0 {
      AbsorbPart(c, reg, block, k - 1);
      assert block[..k][..k - 1] == block[..k - 1];
      var r := Xor(reg[..k - 1], block[..k - 1]) + reg[k - 1..];
      assert r[k - 1] == reg[k - 1];
      assert r[k - 1 := XorByte(reg[k - 1], block[k - 1])] == Xor(reg[..k], block[..k]) + reg[k..];
    } else {
      assert Xor(reg[..0], block[..0]) + reg[0..] == reg;
    }
  }

  lemma AbsorbBlock(c: Cipher, reg: seq<byte>, block: seq<byte>)
    requires Fits(c, MacState(reg, 0)) && |block| == c.size
    ensures Absorb(c, MacState(reg, 0), block) == MacState(c.apply(Xor(reg, block)), 0)
  {
    var k := c.size - 1;
    AbsorbPart(c, reg, block, k);
    var r := Xor(reg[..k], block[..k]) + reg[k..];
    assert r[k := XorByte(reg[k], block[k])] == Xor(reg, block);
    assert block == block[..k] + [block[k]];
  }

  /** Feeding octets amounts to folding blocks. */
  lemma {:induction false} AbsorbIsFold(c: Cipher, reg: seq<byte>, m: seq<byte>, n: nat)
    requires Fits(c, MacState(reg, 0)) && |m| == n * c.size
    ensures Absorb(c, MacState(reg, 0), m) == MacState(Fold(c, reg, m), 0)
    decreases n
  {
    if n == 0 {
      assert m == [];
    } else {
      Distribute(n - 1, 1, c.size);
      var front, block := m[..|m| - c.size], m[|m| - c.size..];
      assert m == front + block;
      AbsorbIsFold(c, reg, front, n - 1);
      AbsorbConcat(c, MacState(reg, 0), front, block);
      AbsorbBlock(c, Fold(c, reg, front), block);
    }
  }

  /** The counter is the number of octets since the last block boundary. */
  lemma {:induction false} AbsorbCounter(c: Cipher, s: MacState, m: seq<byte>)
    requires Fits(c, s)
    ensures Absorb(c, s, m).counter == (s.counter + |m|) % c.size
    decreases |m|
  {
    if m == [] {
      Numbers.ModSmall(s.counter, c.size);
    } else {
      AbsorbCounter(c, s, m[..|m| - 1]);
      CounterStep(s.counter + |m| - 1, c.size);
    }
  }

  lemma CounterStep(n: nat, size: nat)
    requires size > 0
    ensures (n + 1) % size == if n % size + 1 == size then 0 else n % size + 1
  {
    var q, r := n / size, n % size;
    if r + 1 == size {
      Distribute(q, 1, size);
      DivModUnique(n + 1, size, q + 1, 0);
    } else {
      DivModUnique(n + 1, size, q, r + 1);
    }
  }

  // ----- padding

  function PadByte(size: nat, length: nat): byte
    requires 0 < size < 256
  {
    size - length % size
  }

  function Padded(size: nat, m: seq<byte>): seq<byte>
    requires 0 < size < 256
  {
    m + Repeat(PadByte(size, |m|), PadByte(size, |m|))
  }

  /** The padded length is a positive number of blocks. */
  lemma PaddedLength(size: nat, m: seq<byte>) returns (n: nat)
    requires 0 < size < 256
    ensures n > 0 && |Padded(size, m)| == n * size
  {
    n := |m| / size + 1;
    Distribute(|m| / size, 1, size);
  }

  lemma PaddingIsInjective(size: nat, a: seq<byte>, b: seq<byte>)
    requires 0 < size < 256 && Padded(size, a) == Padded(size, b)
    ensures a == b
  {
    var p := Padded(size, a);
    assert p[|p| - 1] == PadByte(size, |a|) && p[|p| - 1] == PadByte(size, |b|);
    assert a == p[..|a|] && b == p[..|b|];
  }

  // ----- the MAC

  function Zeros(c: Cipher): seq<byte> {
    Repeat(0, c.size)
  }

  /** The CBC-MAC of the padded message. */
  ghost function InnerMac(c: Cipher, m: seq<byte>): (mac: seq<byte>)
    requires c.Valid() && c.size < 256
    ensures |mac| == c.size
  {
    Fold(c, Zeros(c), Padded(c.size, m))
  }

  /** Whatever was fed, padding brings the register to a block boundary with the inner MAC in it. */
  lemma PaddingCompletes(c: Cipher, m: seq<byte>)
    requires c.Valid() && c.size < 256
    ensures var s := Absorb(c, MacState(Zeros(c), 0), m);
      var b := c.size - s.counter;
      && 0 < b < 256
      && Absorb(c, s, Repeat(b, b)) == MacState(InnerMac(c, m), 0)
  {
    var s0 := MacState(Zeros(c), 0);
    AbsorbCounter(c, s0, m);
    var b := PadByte(c.size, |m|);
    var n := PaddedLength(c.size, m);
    AbsorbConcat(c, s0, m, Repeat(b, b));
    AbsorbIsFold(c, Zeros(c), Padded(c.size, m), n);
  }

  /** The CBC-MAC object: register and counter, updated in place. */
  class CbcMac {
    const cipher: Cipher
    const reg: array<byte>
    var counter: nat

    ghost predicate Valid()
      reads this, reg
    {
      Fits(cipher, Value())
    }

    ghost function Value(): MacState
      reads this, reg
    {
      MacState(reg[..], counter)
    }

    constructor (cipher: Cipher)
      requires cipher.Valid()
      ensures Valid() && fresh(reg)
      ensures this.cipher == cipher && Value() == MacState(Zeros(cipher), 0)
    {
      this.cipher, counter := cipher, 0;
      reg := new byte[cipher.size](i => 0);
      new;
      assert reg[..] == Zeros(cipher);
    }

    method Update(input: seq<byte>)
      requires Valid()
      modifies this, reg
      ensures Valid() && Value() == Absorb(cipher, old(Value()), input)
    {
      ghost var s := Value();
      var i := 0;
      while i < |input|
        invariant 0 <= i <= |input| && Valid()
        invariant Value() == Absorb(cipher, s, input[..i])
      {
        assert input[..i + 1][..i] == input[..i];
        AbsorbOne(input[i]);
        i := i + 1;
      }
      assert input[..i] == input;
    }

    method AbsorbOne(b: byte)
      requires Valid()
      modifies this, reg
      ensures Valid() && Value() == AbsorbOctet(cipher, old(Value()), b)
    {
      ghost var r: seq<byte> := reg[..];
      reg[counter] := XorByte(reg[counter], b);
      assert reg[..] == r[counter := XorByte(r[counter], b)];
      counter := counter + 1;
      if counter == cipher.size {
        ProcessBuf();
      }
    }

    method ProcessBuf()
      requires cipher.Valid() && reg.Length == cipher.size
      modifies this, reg
      ensures Value() == MacState(cipher.apply(old(reg[..])), 0)
    {
      Put(reg, 0, cipher.apply(reg[..]));
      counter := 0;
    }

    /** The register (after a partial block, encrypted once more), cut to `size`; then a fresh start. */
    method TruncatedFinal(memory: array<byte>, at: nat, size: nat)
      requires Valid() && size <= cipher.size && at + size <= memory.Length && memory != reg
      modifies this, reg, memory
      ensures Valid() && Value() == MacState(Zeros(cipher), 0)
      ensures var tag := if old(counter) == 0 then old(reg[..]) else cipher.apply(old(reg[..]));
        |tag| == cipher.size && memory[..] == old(memory[..])[..at] + tag[..size] + old(memory[..])[at + size..]
    {
      if counter != 0 { ProcessBuf(); }
      Put(memory, at, reg[..size]);
      Put(reg, 0, Zeros(cipher));
      assert reg[..] == Zeros(cipher);
    }
  }

  // ----- the MAC, block by block

  /** Every register but the first is the encryption of the one before, masked with its block. */
  ghost predicate MacRun(c: Cipher, blocks: seq<seq<byte>>, regs: seq<seq<byte>>) {
    && |regs| == |blocks| + 1
    && (forall i :: 0 <= i < |regs| ==> |regs[i]| == c.size)
    && (forall i :: 0 <= i < |blocks| ==> |blocks[i]| == c.size)
    && forall i :: 0 <= i < |blocks| ==> regs[i + 1] == c.apply(Xor(regs[i], blocks[i]))
  }

  lemma MacRunNext(c: Cipher, blocks: seq<seq<byte>>, regs: seq<seq<byte>>, block: seq<byte>)
    requires c.Valid() && MacRun(c, blocks, regs) && |block| == c.size
    ensures MacRun(c, blocks + [block], regs + [c.apply(Xor(regs[|blocks|], block))])
  {}

  /** The fold as such a run over the blocks of the string. */
  lemma {:induction false} FoldIsRun(c: Cipher, reg: seq<byte>, m: seq<byte>, n: nat)
    returns (blocks: seq<seq<byte>>, regs: seq<seq<byte>>)
    requires Fits(c, MacState(reg, 0)) && |m| == n * c.size
    ensures |blocks| == n && Streams.CutFrom(m, blocks, c.size)
    ensures MacRun(c, blocks, regs) && regs[0] == reg && regs[n] == Fold(c, reg, m)
    decreases n
  {
    hide Streams.CutFrom, MacRun, Xor;
    if n == 0 {
      blocks, regs := [], [reg];
      assert m == [];
      Streams.CutNothing(c.size);
      NoBlocks(c, reg);
    } else {
      Distribute(n - 1, 1, c.size);
      var front, block := m[..|m| - c.size], m[|m| - c.size..];
      assert m == front + block;
      var blocks', regs' := FoldIsRun(c, reg, front, n - 1);
      Streams.CutNext(front, blocks', block, c.size, n - 1);
      MacRunSized(c, blocks', regs');
      MacRunNext(c, blocks', regs', block);
      blocks, regs := blocks' + [block], regs' + [c.apply(Xor(regs'[n - 1], block))];
    }
  }

  lemma NoBlocks(c: Cipher, reg: seq<byte>)
    requires |reg| == c.size
    ensures MacRun(c, [], [reg])
  {}

  lemma MacRunSized(c: Cipher, blocks: seq<seq<byte>>, regs: seq<seq<byte>>)
    requires MacRun(c, blocks, regs)
    ensures |regs| == |blocks| + 1 && forall i :: 0 <= i < |regs| ==> |regs[i]| == c.size
  {}

  /**
   The inner MAC is the last of a run that starts from zeros, over the blocks of the message
   followed by b octets of value b, where b is what the last block lacks, or a whole block.
   */
  lemma InnerMacIs(c: Cipher, m: seq<byte>, b: byte) returns (blocks: seq<seq<byte>>, regs: seq<seq<byte>>)
    requires c.Valid() && c.size < 256 && b == c.size - |m| % c.size
    ensures Streams.CutFrom(m + Repeat(b, b), blocks, c.size) && |m| + b == |blocks| * c.size
    ensures MacRun(c, blocks, regs) && regs[0] == Repeat(0, c.size) && regs[|blocks|] == InnerMac(c, m)
  {
    hide Streams.CutFrom, MacRun, Fold;
    var n := PaddedLength(c.size, m);
    blocks, regs := FoldIsRun(c, Repeat(0, c.size), Padded(c.size, m), n);
    MacRunSized(c, blocks, regs);
  }

  // ----- keys

  /** A block cipher before it is keyed, with keys as long as its blocks. */
  datatype Keyed = Keyed(size: nat, encrypt: (seq<byte>, seq<byte>) -> seq<byte>) {
    ghost predicate Valid() {
      0 < size < 256 && forall key, b :: |b| == size ==> |encrypt(key, b)| == size
    }

    /** The cipher under a key. */
    function Under(key: seq<byte>): Cipher {
      Cipher(size, b => encrypt(key, b))
    }
  }

  lemma UnderIsValid(c: Keyed, key: seq<byte>)
    requires c.Valid()
    ensures c.Under(key).Valid() && c.Under(key).size == c.size
  {}

  /** The two ciphers never get the same key: the encryptions of 0 and of 1. */
  lemma SubKeysDiffer(c: Keyed, key: seq<byte>)
    requires c.Valid() && BlockPermutation(c.Under(key).apply, c.size)
    ensures c.encrypt(key, Repeat(0, c.size)) != c.encrypt(key, Repeat(0, c.size - 1) + [1])
  {
    hide BlockPermutation;
    var f, zero, one := c.Under(key).apply, Repeat(0, c.size), Repeat(0, c.size - 1) + [1];
    assert f(zero) == c.encrypt(key, zero) && f(one) == c.encrypt(key, one);
    assert zero[c.size - 1] != one[c.size - 1];
    if f(zero) == f(one) {
      PermutationIsInjective(f, c.size, zero, one);
    }
  }

  /** Both halves of the buffer are encrypted in place, the second one after its last octet was set. */
  method GenerateSubKeys(c: Keyed, key: seq<byte>) returns (subkeys: array<byte>)
    requires c.Valid()
    ensures fresh(subkeys)
    ensures subkeys[..] == c.encrypt(key, Repeat(0, c.size)) + c.encrypt(key, Repeat(0, c.size - 1) + [1])
  {
    var n := c.size;
    subkeys := new byte[2 * n](i => 0);
    assert subkeys[..n] == Repeat(0, n);
    Put(subkeys, 0, c.encrypt(key, subkeys[..n]));
    ghost var first: seq<byte> := subkeys[..n];
    subkeys[n + n - 1] := 1;
    assert subkeys[n..] == Repeat(0, n - 1) + [1];
    Put(subkeys, n, c.encrypt(key, subkeys[n..]));
    assert subkeys[..n] == first;
  }

  /** A block of the caller's memory, encrypted in place. */
  method ProcessBlock(f: Cipher, memory: array<byte>, at: nat)
    requires f.Valid() && at + f.size <= memory.Length
    modifies memory
    ensures memory[..] == old(memory[..])[..at] + f.apply(old(memory[..])[at..at + f.size]) + old(memory[..])[at + f.size..]
  {
    var block := memory[at..at + f.size];
    assert block == memory[..][at..at + f.size];
    Put(memory, at, f.apply(block));
  }

  /** The DMAC object. `message` is what has been fed since the last tag. */
  class DmacBase {
    const mac1: CbcMac
    const f2: Cipher
    var counter: nat
    ghost var message: seq<byte>

    ghost predicate Valid()
      reads this, mac1, mac1.reg
    {
      && mac1.Valid() && f2.Valid() && f2.size == mac1.cipher.size < 256
      && mac1.Value() == Absorb(mac1.cipher, MacState(Zeros(mac1.cipher), 0), message)
      && counter == |message| % mac1.cipher.size
    }

    /** UncheckedSetKey: each cipher under its sub-key, and an empty message. */
    constructor (c: Keyed, key: seq<byte>)
      requires c.Valid()
      ensures Valid() && fresh(mac1) && fresh(mac1.reg)
      ensures mac1.cipher == c.Under(c.encrypt(key, Repeat(0, c.size)))
      ensures f2 == c.Under(c.encrypt(key, Repeat(0, c.size - 1) + [1])) && message == []
    {
      var subkeys := GenerateSubKeys(c, key);
      UnderIsValid(c, subkeys[..c.size]);
      UnderIsValid(c, subkeys[c.size..]);
      mac1 := new CbcMac(c.Under(subkeys[..c.size]));
      f2, counter, message := c.Under(subkeys[c.size..]), 0, [];
      new;
      Numbers.ModSmall(0, c.size);
    }

    method Update(input: seq<byte>)
      requires Valid()
      modifies this, mac1, mac1.reg
      ensures Valid() && message == old(message) + input
    {
      hide Absorb;
      AbsorbConcat(mac1.cipher, MacState(Zeros(mac1.cipher), 0), message, input);
      mac1.Update(input);
      Numbers.ModAdd(|message|, |input|, mac1.cipher.size);
      counter := (counter + |input|) % mac1.cipher.size;
      message := message + input;
    }

    /**
     TruncatedFinal; false stands for the exception on a size beyond the block. The second
     cipher works in place on a whole block of the caller's memory, also when fewer octets
     of the inner MAC were put there.
     */
    method TruncatedFinal(memory: array<byte>, at: nat, size: nat) returns (ok: bool)
      requires Valid() && memory != mac1.reg
      requires size <= f2.size ==> at + f2.size <= memory.Length
      modifies this, mac1, mac1.reg, memory
      ensures Valid() && ok == (size <= f2.size)
      ensures !ok ==> memory[..] == old(memory[..]) && message == old(message)
      ensures ok ==> message == [] && counter == 0
      ensures ok ==>
        var block := InnerMac(mac1.cipher, old(message))[..size] + old(memory[..])[at + size..at + f2.size];
        memory[..] == old(memory[..])[..at] + f2.apply(block) + old(memory[..])[at + f2.size..]
    {
      hide Absorb, InnerMac;
      if size > f2.size { return false; }
      TagInto(memory, at, size);
      counter, message := 0, [];
      EmptyMessage(mac1.cipher);
      ok := true;
    }

    /** The cut inner MAC, and the second cipher over the block that starts with it. */
    method TagInto(memory: array<byte>, at: nat, size: nat)
      requires Valid() && memory != mac1.reg && size <= f2.size && at + f2.size <= memory.Length
      modifies mac1, mac1.reg, memory
      ensures mac1.Valid() && mac1.Value() == MacState(Zeros(mac1.cipher), 0)
      ensures
        var block := InnerMac(mac1.cipher, message)[..size] + old(memory[..])[at + size..at + f2.size];
        memory[..] == old(memory[..])[..at] + f2.apply(block) + old(memory[..])[at + f2.size..]
    {
      hide Absorb, InnerMac;
      var n := f2.size;
      ghost var m0, inner := memory[..], InnerMac(mac1.cipher, message)[..size];
      ghost var block := inner + m0[at + size..at + n];
      PadAndFinish(memory, at, size);
      ghost var m1, tag := memory[..], f2.apply(block);
      assert |tag| == n && |inner| == size;
      assert m1 == m0[..at] + inner + m0[at + |inner|..];
      Overwrite(m0, at, inner, tag, n);
      ProcessBlock(f2, memory, at);
      assert memory[..] == m1[..at] + tag + m1[at + n..];
    }

    /** The padding octets, and the inner MAC into the caller's memory. */
    method PadAndFinish(memory: array<byte>, at: nat, size: nat)
      requires Valid() && memory != mac1.reg && size <= f2.size && at + f2.size <= memory.Length
      modifies mac1, mac1.reg, memory
      ensures mac1.Valid() && mac1.Value() == MacState(Zeros(mac1.cipher), 0)
      ensures memory[..] == old(memory[..])[..at] + InnerMac(mac1.cipher, message)[..size] + old(memory[..])[at + size..]
    {
      hide Absorb, Fold, Padded;
      PaddingCompletes(mac1.cipher, message);
      AbsorbCounter(mac1.cipher, MacState(Zeros(mac1.cipher), 0), message);
      var padByte := f2.size - counter;
      mac1.Update(Repeat(padByte, padByte));
      mac1.TruncatedFinal(memory, at, size);
    }
  }

  // ----- shorter tags

  /** The short tag is a prefix: `rest` is what the caller's memory held behind the cut inner MAC. */
  predicate PrefixTag(f2: seq<byte> -> seq<byte>, inner: seq<byte>, size: nat, rest: seq<byte>)
    requires size <= |inner|
  {
    var short, full := f2(inner[..size] + rest), f2(inner);
    size <= |short| && size <= |full| && short[..size] == full[..size]
  }

  function Reversed(b: seq<byte>): (r: seq<byte>)
    ensures |r| == |b|
    ensures forall i :: 0 <= i < |b| ==> r[i] == b[|b| - 1 - i]
  {
    seq(|b|, i requires 0 <= i < |b| => b[|b| - 1 - i])
  }

  lemma ReversedIsPermutation(n: nat)
    ensures BlockPermutation(Reversed, n)
  {
    forall b: seq<byte> | |b| == n ensures Reversed(Reversed(b)) == b {}
    var g: seq<byte> -> seq<byte> := Reversed;
    assert Undoes(g, Reversed, n);
  }

  lemma WholeOrEmptyIsPrefix(f2: seq<byte> -> seq<byte>, inner: seq<byte>, size: nat, rest: seq<byte>)
    requires BlockFunction(f2, |inner|) && |rest| == |inner| - size && (size == 0 || size == |inner|)
    ensures PrefixTag(f2, inner, size, rest)
  {
    if size > 0 {
      assert inner[..size] + rest == inner;
    }
  }

  /** Reversal brings an octet of the caller's memory to the front. */
  lemma ReversalIsNotPrefix(inner: seq<byte>, size: nat) returns (rest: seq<byte>)
    requires 0 < size < |inner|
    ensures |rest| == |inner| - size && !PrefixTag(Reversed, inner, size, rest)
  {
    var n := |inner|;
    var other: byte := if inner[n - 1] == 0 then 1 else 0;
    rest := Repeat(other, n - size);
    var short, full := Reversed(inner[..size] + rest), Reversed(inner);
    assert short[0] == other && full[0] == inner[n - 1];
    assert short[..size][0] != full[..size][0];
  }

  /**
   For every inner MAC and every permitted size: the short tag is the prefix of the full one,
   for all second ciphers and all contents of the caller's memory, exactly when it is empty or
   the full tag itself.
   */
  lemma ShortTagIsPrefixExactlyWhen(inner: seq<byte>, size: nat)
    requires size <= |inner|
    ensures (forall f2, rest :: BlockPermutation(f2, |inner|) && |rest| == |inner| - size ==> PrefixTag(f2, inner, size, rest))
       <==> size == 0 || size == |inner|
  {
    hide PrefixTag;
    if size == 0 || size == |inner| {
      forall f2, rest | BlockPermutation(f2, |inner|) && |rest| == |inner| - size ensures PrefixTag(f2, inner, size, rest) {
        WholeOrEmptyIsPrefix(f2, inner, size, rest);
      }
    } else {
      hide BlockPermutation;
      var rest := ReversalIsNotPrefix(inner, size);
      ReversedIsPermutation(|inner|);
    }
  }

  /** Writing at one place twice, the second time at least as far. */
  lemma Overwrite(m: seq<byte>, at: nat, x: seq<byte>, y: seq<byte>, n: nat)
    requires |x| <= |y| == n && at + n <= |m|
    ensures var m1 := m[..at] + x + m[at + |x|..];
      m1[at..at + n] == x + m[at + |x|..at + n] && m1[..at] + y + m1[at + n..] == m[..at] + y + m[at + n..]
  {}

  lemma EmptyMessage(c: Cipher)
    requires c.Valid()
    ensures Absorb(c, MacState(Zeros(c), 0), []) == MacState(Zeros(c), 0) && 0 % c.size == 0
  {
    Numbers.ModSmall(0, c.size);
  }

  // ----- chunking

  function Flatten(chunks: seq<seq<byte>>): seq<byte> {
    if chunks == [] then [] else Flatten(chunks[..|chunks| - 1]) + chunks[|chunks| - 1]
  }

  /** Feeding chunk after chunk. */
  ghost function AbsorbAll(c: Cipher, s: MacState, chunks: seq<seq<byte>>): (s': MacState)
    requires Fits(c, s)
    ensures Fits(c, s')
  {
    if chunks == [] then s else Absorb(c, AbsorbAll(c, s, chunks[..|chunks| - 1]), chunks[|chunks| - 1])
  }

  /** Only the concatenation of the chunks matters, however they are cut. */
  lemma {:induction false} ChunkingDoesNotMatter(c: Cipher, s: MacState, chunks: seq<seq<byte>>)
    requires Fits(c, s)
    ensures AbsorbAll(c, s, chunks) == Absorb(c, s, Flatten(chunks))
  {
    if chunks != [] {
      ChunkingDoesNotMatter(c, s, chunks[..|chunks| - 1]);
      AbsorbConcat(c, s, Flatten(chunks[..|chunks| - 1]), chunks[|chunks| - 1]);
    }
  }

  /** A whole tag over any chunking: the second cipher of the CBC-MAC of the padded message. */
  method TagOfChunks(d: DmacBase, chunks: seq<seq<byte>>, mac: array<byte>)
    requires d.Valid() && d.message == [] && mac.Length == d.f2.size
    requires mac != d.mac1.reg
    modifies d, d.mac1, d.mac1.reg, mac
    ensures d.Valid() && d.message == [] && d.counter == 0
    ensures mac[..] == d.f2.apply(InnerMac(d.mac1.cipher, Flatten(chunks)))
  {
    hide InnerMac, Absorb;
    var i := 0;
    while i < |chunks|
      invariant 0 <= i <= |chunks| && d.Valid() && d.message == Flatten(chunks[..i])
    {
      assert chunks[..i + 1][..i] == chunks[..i];
      d.Update(chunks[i]);
      i := i + 1;
    }
    assert chunks[..i] == chunks;
    var n := d.f2.size;
    ghost var tag, before := InnerMac(d.mac1.cipher, Flatten(chunks)), mac[..];
    var ok := d.TruncatedFinal(mac, 0, n);
    assert tag[..n] + before[n..n] == tag;
    assert d.f2.apply(tag) + before[n..] == d.f2.apply(tag);
  }
}
