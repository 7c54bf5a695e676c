/**
 The three SSE templates: pointers that step through memory, batches while enough is left,
 and a tail of single blocks.
 */
module AdvTemplates {
  import opened Bytes
  import opened XorBlocks
  import opened Lanes
  import opened AdvBlocks
  import opened AdvBatches
  import AdvWindows

  /** The three pointers and the octets left. */
  datatype Cursor = Cursor(inPtr: int, xorPtr: int, outPtr: int, length: nat)

  /** By how much each pointer moves. */
  datatype Steps = Steps(inInc: int, xorInc: int, outInc: int)

  function Signed(j: Job, n: int): int {
    if j.flags.reverse then -n else n
  }

  /** Increments of `n` octets, zero for a pointer that stays or is absent. */
  function StepsOf(j: Job, n: nat): Steps {
    Steps(if j.Fixed() then 0 else Signed(j, n), if j.hasXor then Signed(j, n) else 0,
          if j.flags.stationary then 0 else Signed(j, n))
  }

  /** The pointers stand at block k. */
  ghost predicate AtBlock(j: Job, c: Cursor, k: nat) {
    && c.inPtr == InAt(j, k) && (j.hasXor ==> c.xorPtr == XorAt(j, k)) && c.outPtr == OutAt(j, k)
    && c.length == j.length - Span(j.block, k)
  }

  /** The pointers stand at the word that starts with block k. */
  ghost predicate AtWord(j: Job, c: Cursor, k: nat) {
    && c.inPtr == (if j.Fixed() then j.input else WordAt(j, j.input, k, 0))
    && (j.hasXor ==> c.xorPtr == WordAt(j, j.xor, k, 0))
    && c.outPtr == (if j.flags.stationary then j.output else WordAt(j, j.output, k, 0))
    && c.length == j.length - Span(j.block, k)
  }

  // ----- what the templates leave in memory

  /** Batches of w words while that much is left: the memory, and how many blocks are done. */
  ghost function Batches(j: Job, m: seq<byte>, k: nat, w: nat): (r: (seq<byte>, nat))
    requires Ok(j, |m|) && !j.flags.stationary && k <= j.Count() && w > 0
    ensures |r.0| == |m| && k <= r.1 <= j.Count()
    decreases j.Count() - k
  {
    if j.length - Span(j.block, k) < 16 * w then (m, k)
    else Batches(j, Stored(j, m, k, w, w), k + Held(j, w), w)
  }

  predicate Positive(sizes: seq<nat>) {
    forall i :: 0 <= i < |sizes| ==> sizes[i] > 0
  }

  /** Batches of each of the given sizes in turn, then single blocks. */
  ghost function Batched(j: Job, m: seq<byte>, k: nat, sizes: seq<nat>): (m': seq<byte>)
    requires Ok(j, |m|) && k <= j.Count() && (sizes != [] ==> !j.flags.stationary)
    requires Positive(sizes)
    ensures |m'| == |m|
    decreases |sizes|
  {
    if sizes == [] then SerialRun(j, m, k, j.Count() - k) else
      var (m1, k1) := Batches(j, m, k, sizes[0]);
      Batched(j, m1, k1, sizes[1..])
  }

  lemma BatchesStep(j: Job, m: seq<byte>, k: nat, w: nat)
    requires Ok(j, |m|) && !j.flags.stationary && k <= j.Count() && w > 0
    ensures j.length - Span(j.block, k) < 16 * w ==> Batches(j, m, k, w) == (m, k)
    ensures j.length - Span(j.block, k) >= 16 * w ==> (
      && Batchable(j, |m|, k, w) && Held(j, w) > 0
      && Batches(j, m, k, w) == Batches(j, Stored(j, m, k, w, w), k + Held(j, w), w))
  {}

  lemma {:induction false} BatchesAreSerial(j: Job, m: seq<byte>, k: nat, w: nat)
    requires Ok(j, |m|) && !j.flags.stationary && k <= j.Count() && w > 0
    requires 16 * w <= j.length ==> SafeWithin(j, 16 * w) || SelfMasked(j)
    ensures Batches(j, m, k, w).0 == SerialRun(j, m, k, Batches(j, m, k, w).1 - k)
    decreases j.Count() - k
  {
    hide *;
    BatchesStep(j, m, k, w);
    if j.length - Span(j.block, k) >= 16 * w {
      SpanIsPositive(j, |m|, k);
      if SelfMasked(j) {
        SelfMaskedBatchIsSerial(j, m, k, w);
      } else {
        AdvWindows.BatchIsSerialWithin(j, m, k, w);
      }
      var m1, k1 := Stored(j, m, k, w, w), k + Held(j, w);
      HeldFits(j, |m|, k, w, w);
      BatchesAreSerial(j, m1, k1, w);
      SerialRunSplit(j, m, k, k1 - k, Batches(j, m1, k1, w).1 - k1);
    } else {
      SerialRunNone(j, m, k);
    }
  }

  lemma SpanIsPositive(j: Job, size: nat, k: nat)
    requires Ok(j, size)
    ensures Span(j.block, k) >= 0
  {}

  lemma BatchedStep(j: Job, m: seq<byte>, k: nat, sizes: seq<nat>)
    requires Ok(j, |m|) && k <= j.Count() && (sizes != [] ==> !j.flags.stationary) && Positive(sizes)
    ensures sizes == [] ==> Batched(j, m, k, sizes) == SerialRun(j, m, k, j.Count() - k)
    ensures sizes != [] ==> (
      && Positive(sizes[1..])
      && Batched(j, m, k, sizes) == Batched(j, Batches(j, m, k, sizes[0]).0, Batches(j, m, k, sizes[0]).1, sizes[1..]))
  {}

  /** Every batch the call is long enough for is safe: the octets in flight at once are 16 to a word. */
  predicate SafeFor(j: Job, sizes: seq<nat>) {
    forall w :: w in sizes && 16 * w <= j.length ==> SafeWithin(j, 16 * w)
  }

  lemma SafeForShorter(j: Job, w: nat)
    requires WellFormed(j) && SafeWithin(j, Span(j.block, j.Count())) && 16 * w <= j.length
    ensures SafeWithin(j, 16 * w)
  {}

  /** Safe over the whole call is safe for batches of any size. */
  lemma SafeIsSafeFor(j: Job, sizes: seq<nat>)
    requires WellFormed(j) && SafeWithin(j, Span(j.block, j.Count()))
    ensures SafeFor(j, sizes)
  {
    hide SafeWithin, WellFormed;
    forall w | w in sizes && 16 * w <= j.length ensures SafeWithin(j, 16 * w) {
      SafeForShorter(j, w);
    }
  }

  /** Whatever the batch sizes, the memory is what the serial loop leaves. */
  lemma {:induction false} BatchedIsSerial(j: Job, m: seq<byte>, k: nat, sizes: seq<nat>)
    requires Ok(j, |m|) && k <= j.Count() && Positive(sizes)
    requires sizes != [] ==> !j.flags.stationary && (SafeFor(j, sizes) || SelfMasked(j))
    ensures Batched(j, m, k, sizes) == SerialRun(j, m, k, j.Count() - k)
    decreases |sizes|
  {
    hide SerialRun, Batches, Batched, SafeWithin, SelfMasked, Ok, Job.Count;
    BatchedStep(j, m, k, sizes);
    if sizes != [] {
      assert sizes[0] in sizes;
      BatchesAreSerial(j, m, k, sizes[0]);
      var m1, k1 := Batches(j, m, k, sizes[0]).0, Batches(j, m, k, sizes[0]).1;
      BatchedIsSerial(j, m1, k1, sizes[1..]);
      SerialRunSplit(j, m, k, k1 - k, j.Count() - k1);
    }
  }

  // ----- pieces of a batch

  /** Address of the t-th word from a pointer that moves by whole words. */
  function Nth(reverse: bool, p: int, t: int): int {
    if reverse then p - 16 * t else p + 16 * t
  }

  predicate WordsInside(size: nat, reverse: bool, p: int, w: nat) {
    forall t :: 0 <= t < w ==> 0 <= Nth(reverse, p, t) && Nth(reverse, p, t) + 16 <= size
  }

  method LoadWords(mem: array<byte>, reverse: bool, p0: int, inc: int, w: nat) returns (ws: seq<seq<byte>>, p: int)
    requires WordsInside(mem.Length, reverse, p0, w) && inc == if reverse then -16 else 16
    ensures |ws| == w && p == Nth(reverse, p0, w)
    ensures forall t :: 0 <= t < w ==> 0 <= Nth(reverse, p0, t) && ws[t] == Slice(mem[..], Nth(reverse, p0, t), 16)
  {
    ws, p := [], p0;
    var i := 0;
    while i < w
      invariant 0 <= i <= w == w && |ws| == i && p == Nth(reverse, p0, i)
      invariant forall t :: 0 <= t < i ==> 0 <= Nth(reverse, p0, t) && ws[t] == Slice(mem[..], Nth(reverse, p0, t), 16)
    {
      assert mem[p..p + 16] == Slice(mem[..], p, 16);
      ws, p, i := ws + [mem[p..p + 16]], p + inc, i + 1;
    }
  }

  method XorWords(mem: array<byte>, reverse: bool, p0: int, inc: int, ws: seq<seq<byte>>) returns (xs: seq<seq<byte>>, p: int)
    requires WordsInside(mem.Length, reverse, p0, |ws|) && inc == if reverse then -16 else 16
    requires forall t :: 0 <= t < |ws| ==> |ws[t]| == 16
    ensures |xs| == |ws| && p == Nth(reverse, p0, |ws|)
    ensures forall t :: 0 <= t < |ws| ==>
      0 <= Nth(reverse, p0, t) && xs[t] == Xor(ws[t], Slice(mem[..], Nth(reverse, p0, t), 16))
  {
    xs, p := [], p0;
    var i := 0;
    while i < |ws|
      invariant 0 <= i <= |ws| && |xs| == i && p == Nth(reverse, p0, i)
      invariant forall t :: 0 <= t < i ==>
        0 <= Nth(reverse, p0, t) && xs[t] == Xor(ws[t], Slice(mem[..], Nth(reverse, p0, t), 16))
    {
      assert mem[p..p + 16] == Slice(mem[..], p, 16);
      xs, p, i := xs + [Xor(ws[i], mem[p..p + 16])], p + inc, i + 1;
    }
  }

  /** func6, func4 or func2 on all words of the batch. */
  method TransformWords(j: Job, ws: seq<seq<byte>>) returns (ys: seq<seq<byte>>)
    requires WellFormed(j) && forall t :: 0 <= t < |ws| ==> |ws[t]| == 16
    ensures |ys| == |ws|
    ensures forall t :: 0 <= t < |ws| ==> ys[t] == Apply(j, ws[t]) && |ys[t]| == 16
  {
    ys := [];
    var i := 0;
    while i < |ws|
      invariant 0 <= i <= |ws| && |ys| == i
      invariant forall t :: 0 <= t < i ==> ys[t] == Apply(j, ws[t]) && |ys[t]| == 16
    {
      ApplySize(j, ws[i]);
      ys, i := ys + [Apply(j, ws[i])], i + 1;
    }
  }

  /** Storing the words of a batch one after the other. */
  method StoreWords(j: Job, mem: array<byte>, p0: int, inc: int, ws: seq<seq<byte>>, ghost m: seq<byte>, ghost k: nat)
    returns (p: int)
    requires Batchable(j, |m|, k, |ws|) && |m| == mem.Length
    requires p0 == WordAt(j, j.output, k, 0) && inc == Signed(j, 16)
    requires mem[..] == Stored(j, m, k, |ws|, 0)
    requires forall t :: 0 <= t < |ws| ==> ws[t] == BatchWord(j, m, k, |ws|, t)
    modifies mem
    ensures mem[..] == Stored(j, m, k, |ws|, |ws|) && p == Nth(j.flags.reverse, p0, |ws|)
  {
    hide Stored, BatchWord;
    p := p0;
    var i := 0;
    while i < |ws|
      invariant 0 <= i <= |ws| && p == Nth(j.flags.reverse, p0, i) && mem[..] == Stored(j, m, k, |ws|, i)
    {
      WordFits(j, |m|, k, |ws|, i);
      StoredLast(j, m, k, |ws|, i + 1);
      assert p == WordAt(j, j.output, k, i);
      Put(mem, p, ws[i]);
      p, i := p + inc, i + 1;
    }
  }

  // ----- counters

  /** The 128-bit counter path: each word is the one before it plus one in the last lane. */
  method CounterWords128(mem: array<byte>, at: nat, w: nat) returns (ws: seq<seq<byte>>)
    requires at + 16 <= mem.Length && w > 0
    modifies mem
    ensures |ws| == w && forall t :: 0 <= t < w ==> ws[t] == Bump(Slice(old(mem[..]), at, 16), t)
    ensures mem[..] == Splice(old(mem[..]), at, Bump(Slice(old(mem[..]), at, 16), w))
  {
    hide AddEpi32, Bump;
    ghost var c := Slice(mem[..], at, 16);
    var block := mem[at..at + 16];
    assert block == c;
    BumpZero(c);
    ws := [block];
    while |ws| < w
      invariant mem[..] == old(mem[..]) && 1 <= |ws| <= w && block == Bump(c, |ws| - 1)
      invariant forall t :: 0 <= t < |ws| ==> ws[t] == Bump(c, t)
      decreases w - |ws|
    {
      AddOneIs(block);
      BumpBump(c, |ws| - 1, 1);
      block := AddEpi32(block, ONE);
      ws := ws + [block];
    }
    AddOneIs(block);
    BumpBump(c, w - 1, 1);
    Put(mem, at, AddEpi32(block, ONE));
  }

  /**
   The 64-bit counter path: two counters to a word, one apart, each word two ahead. Only the
   low eight octets of the word after the last one are stored back.
   */
  method CounterWords64(mem: array<byte>, at: nat, w: nat, wideAdd: bool) returns (ws: seq<seq<byte>>)
    requires at + 8 <= mem.Length && w > 0
    modifies mem
    ensures |ws| == w && forall t :: 0 <= t < w ==>
      ws[t] == Bump(Slice(old(mem[..]), at, 8), 2 * t) + Bump(Slice(old(mem[..]), at, 8), 2 * t + 1)
    ensures mem[..] == Splice(old(mem[..]), at, Bump(Slice(old(mem[..]), at, 8), 2 * w))
  {
    hide AddEpi32, AddEpi64, Bump;
    ghost var c := Slice(mem[..], at, 8);
    assert mem[at..at + 8] == c;
    BumpZero(c);
    AddOneToHigh(c, c);
    var block := AddEpi32(mem[at..at + 8] + mem[at..at + 8], ONE);
    ws := [block];
    while |ws| < w
      invariant mem[..] == old(mem[..]) && 1 <= |ws| <= w && block == Bump(c, 2 * (|ws| - 1)) + Bump(c, 2 * (|ws| - 1) + 1)
      invariant forall t :: 0 <= t < |ws| ==> ws[t] == Bump(c, 2 * t) + Bump(c, 2 * t + 1)
      decreases w - |ws|
    {
      NextPair(c, |ws| - 1);
      block := AddEpi32(block, TWO);
      ws := ws + [block];
    }
    NextPair(c, w - 1);
    var next := if wideAdd then AddEpi64(block, TWO) else AddEpi32(block, TWO);
    Put(mem, at, next[..8]);
  }

  lemma NextPair(c: seq<byte>, t: nat)
    requires |c| == 8
    ensures var w := Bump(c, 2 * t) + Bump(c, 2 * t + 1);
      && AddEpi32(w, TWO) == AddEpi64(w, TWO) == Bump(c, 2 * (t + 1)) + Bump(c, 2 * (t + 1) + 1)
      && AddEpi32(w, TWO)[..8] == Bump(c, 2 * (t + 1))
  {
    hide AddEpi32, AddEpi64, Bump;
    AddTwoIs(Bump(c, 2 * t), Bump(c, 2 * t + 1));
    BumpBump(c, 2 * t, 2);
    BumpBump(c, 2 * t + 1, 2);
  }

  // ----- one batch

  lemma WordsOfArea(j: Job, size: nat, k: nat, w: nat, base: nat)
    requires Batchable(j, size, k, w) && base + j.length <= size
    ensures WordsInside(size, j.flags.reverse, WordAt(j, base, k, 0), w)
    ensures forall t :: 0 <= t < w ==> Nth(j.flags.reverse, WordAt(j, base, k, 0), t) == WordAt(j, base, k, t)
    ensures Nth(j.flags.reverse, WordAt(j, base, k, 0), w) == WordAt(j, base, k + Held(j, w), 0)
  {}

  /** The words a batch starts from: consecutive counters, or loaded from the input area. */
  method LoadBatch(j: Job, mem: array<byte>, c: Cursor, w: nat, wideAdd: bool, ghost k: nat)
    returns (ws: seq<seq<byte>>, inPtr: int)
    requires Batchable(j, mem.Length, k, w) && w > 0 && AtWord(j, c, k)
    modifies mem
    ensures |ws| == w && forall t :: 0 <= t < w ==> ws[t] == InWord(j, old(mem[..]), k, w, t)
    ensures mem[..] == Counted(j, old(mem[..]), Held(j, w))
    ensures inPtr == if j.Fixed() then j.input else WordAt(j, j.input, k + Held(j, w), 0)
  {
    hide Bump, Slice, Splice;
    if j.flags.counter {
      inPtr := c.inPtr;
      if j.block == 16 {
        ws := CounterWords128(mem, c.inPtr, w);
      } else {
        ws := CounterWords64(mem, c.inPtr, w, wideAdd);
      }
    } else {
      WordsOfArea(j, mem.Length, k, w, j.input);
      ws, inPtr := LoadWords(mem, j.flags.reverse, c.inPtr, Signed(j, 16), w);
    }
  }

  /** The mask words met by the words of a batch. */
  method MaskBatch(j: Job, mem: array<byte>, ws: seq<seq<byte>>, xorPtr0: int, ghost k: nat)
    returns (xs: seq<seq<byte>>, xorPtr: int)
    requires Batchable(j, mem.Length, k, |ws|) && j.hasXor && xorPtr0 == WordAt(j, j.xor, k, 0)
    requires forall t :: 0 <= t < |ws| ==> |ws[t]| == 16
    ensures |xs| == |ws| && forall t :: 0 <= t < |ws| ==> xs[t] == Xor(ws[t], MaskWord(j, mem[..], k, |ws|, t))
    ensures xorPtr == WordAt(j, j.xor, k + Held(j, |ws|), 0)
  {
    hide Slice, Xor;
    WordsOfArea(j, mem.Length, k, |ws|, j.xor);
    xs, xorPtr := XorWords(mem, j.flags.reverse, xorPtr0, Signed(j, 16), ws);
  }

  /** All loads, masks and transformations of a batch, before its first store. */
  method ComputeBatch(j: Job, mem: array<byte>, c: Cursor, w: nat, wideAdd: bool, ghost k: nat)
    returns (ws: seq<seq<byte>>, inPtr: int, xorPtr: int)
    requires Batchable(j, mem.Length, k, w) && w > 0 && AtWord(j, c, k)
    modifies mem
    ensures |ws| == w && forall t :: 0 <= t < w ==> ws[t] == BatchWord(j, old(mem[..]), k, w, t)
    ensures mem[..] == Counted(j, old(mem[..]), Held(j, w))
    ensures inPtr == if j.Fixed() then j.input else WordAt(j, j.input, k + Held(j, w), 0)
    ensures j.hasXor ==> xorPtr == WordAt(j, j.xor, k + Held(j, w), 0)
  {
    var xorInput, xorOutput := j.hasXor && j.flags.xorInput, j.hasXor && !j.flags.xorInput;
    ghost var m := mem[..];
    ws, inPtr := LoadBatch(j, mem, c, w, wideAdd, k);
    hide Apply, Xor, Counted, InWord, MaskWord, Batchable, Ok;
    ghost var m1 := mem[..];
    xorPtr := c.xorPtr;
    if xorInput {
      ws, xorPtr := MaskBatch(j, mem, ws, xorPtr, k);
      assert forall t :: 0 <= t < w ==> ws[t] == Xor(InWord(j, m, k, w, t), MaskWord(j, m1, k, w, t));
    }
    ws := TransformWords(j, ws);
    if xorOutput {
      ws, xorPtr := MaskBatch(j, mem, ws, xorPtr, k);
    }
  }

  method Batch(j: Job, mem: array<byte>, c: Cursor, w: nat, wideAdd: bool, ghost k: nat) returns (c': Cursor)
    requires Batchable(j, mem.Length, k, w) && w > 0 && AtWord(j, c, k) && c.length >= 16 * w
    modifies mem
    ensures mem[..] == Stored(j, old(mem[..]), k, w, w)
    ensures AtWord(j, c', k + Held(j, w))
  {
    ghost var m := mem[..];
    var ws, inPtr, xorPtr := ComputeBatch(j, mem, c, w, wideAdd, k);
    StoredNone(j, m, k, w);
    hide Stored, BatchWord, Counted;
    WordsOfArea(j, mem.Length, k, w, j.output);
    var outPtr := StoreWords(j, mem, c.outPtr, Signed(j, 16), ws, m, k);
    c' := Cursor(inPtr, xorPtr, outPtr, c.length - 16 * w);
  }

  /** while (length >= w words): one loop of the parallel part. */
  method BatchLoop(j: Job, mem: array<byte>, c0: Cursor, w: nat, wideAdd: bool, ghost k0: nat)
    returns (c: Cursor, ghost k: nat)
    requires Ok(j, mem.Length) && !j.flags.stationary && k0 <= j.Count() && w > 0 && AtWord(j, c0, k0)
    modifies mem
    ensures (mem[..], k) == Batches(j, old(mem[..]), k0, w) && k <= j.Count()
    ensures AtWord(j, c, k)
  {
    hide Batches, Stored, Ok, WordAt, Batchable, Held;
    ghost var m0 := mem[..];
    c, k := c0, k0;
    while c.length >= 16 * w
      invariant k <= j.Count() && AtWord(j, c, k)
      invariant Batches(j, m0, k0, w) == Batches(j, mem[..], k, w)
      decreases j.Count() - k
    {
      BatchesStep(j, mem[..], k, w);
      HeldFits(j, mem.Length, k, w, w);
      c := Batch(j, mem, c, w, wideAdd, k);
      k := k + Held(j, w);
    }
    BatchesStep(j, mem[..], k, w);
  }

  // ----- the tail

  /** A block, xored with the mask at `p` if there is one to be applied here. */
  function MaskedIf(on: bool, m: seq<byte>, p: int, b: seq<byte>): (r: seq<byte>)
    requires on ==> 0 <= p && p + |b| <= |m|
    ensures |r| == |b|
  {
    if on then Xor(b, m[p..p + |b|]) else b
  }

  method MaskIf(on: bool, mem: array<byte>, p: int, block: seq<byte>) returns (r: seq<byte>)
    requires on ==> 0 <= p && p + |block| <= mem.Length
    ensures r == MaskedIf(on, mem[..], p, block)
  {
    r := block;
    if on {
      assert mem[p..p + |block|] == mem[..][p..p + |block|];
      r := Xor(block, mem[p..p + |block|]);
    }
  }

  /** The body of the loop over single blocks. */
  method SingleBlock(j: Job, mem: array<byte>, c: Cursor, ghost k: nat)
    requires Ok(j, mem.Length) && k < j.Count() && AtBlock(j, c, k)
    modifies mem
    ensures mem[..] == Step(j, old(mem[..]), k)
  {
    StepIs(j, mem[..], c, k);
    hide *;
    var block := mem[c.inPtr..c.inPtr + j.block];
    assert block == mem[..][c.inPtr..c.inPtr + j.block];
    block := MaskIf(j.hasXor && j.flags.xorInput, mem, c.xorPtr, block);
    CountOnce(j, mem);
    block := j.f(block);
    block := MaskIf(j.hasXor && !j.flags.xorInput, mem, c.xorPtr, block);
    StoreBlock(mem, c.outPtr, block);
  }

  /** if (flags & BT_InBlockIsCounter) inBlocks[blockSize - 1]++ */
  method CountOnce(j: Job, mem: array<byte>)
    requires j.flags.counter ==> 0 < j.block && j.input + j.block <= mem.Length
    modifies mem
    ensures mem[..] == Counted(j, old(mem[..]), 1)
  {
    if j.flags.counter {
      ghost var m: seq<byte> := mem[..];
      var last := j.input + j.block - 1;
      OneOctetBumped(m, j.input, j.block);
      mem[last] := Octet(mem[last] as int + 1);
      assert mem[..] == m[last := Octet(m[last] as int + 1)];
    }
  }

  method StoreBlock(mem: array<byte>, p: int, w: seq<byte>)
    requires 0 <= p && p + |w| <= mem.Length
    modifies mem
    ensures mem[..] == Splice(old(mem[..]), p, w)
  {
    Put(mem, p, w);
  }

  /** The step at the pointers, with its two reads of the mask told apart. */
  lemma StepAt(j: Job, m: seq<byte>, k: nat)
    requires Ok(j, |m|) && k < j.Count()
    requires 0 <= InAt(j, k) && InAt(j, k) + j.block <= |m| && 0 <= OutAt(j, k) && OutAt(j, k) + j.block <= |m|
    requires j.hasXor ==> 0 <= XorAt(j, k) && XorAt(j, k) + j.block <= |m|
    ensures j.flags.counter ==> 0 < j.block && j.input + j.block <= |m|
    ensures var inb, m1 := m[InAt(j, k)..InAt(j, k) + j.block], Counted(j, m, 1);
      var fb := j.f(MaskedIf(j.hasXor && j.flags.xorInput, m, XorAt(j, k), inb));
      && |fb| == j.block
      && Step(j, m, k) == Splice(m1, OutAt(j, k), MaskedIf(j.hasXor && !j.flags.xorInput, m1, XorAt(j, k), fb))
  {
    CounterFits(j, |m|);
    TransformIs(j, m, Counted(j, m, 1), XorAt(j, k), m[InAt(j, k)..InAt(j, k) + j.block]);
    hide InAt, XorAt, OutAt, Ok, Splice, Bump, Transform, MaskedIf, Counted;
  }

  lemma TransformIs(j: Job, m: seq<byte>, m1: seq<byte>, p: int, inb: seq<byte>)
    requires WellFormed(j) && |inb| == j.block && |m| == |m1| && (j.hasXor ==> 0 <= p && p + j.block <= |m|)
    ensures var fb := j.f(MaskedIf(j.hasXor && j.flags.xorInput, m, p, inb));
      && |fb| == j.block
      && Transform(j, inb, if j.hasXor then Slice(if j.flags.xorInput then m else m1, p, j.block) else [])
         == MaskedIf(j.hasXor && !j.flags.xorInput, m1, p, fb)
  {}

  lemma CounterFits(j: Job, size: nat)
    requires Ok(j, size)
    ensures j.flags.counter ==> 0 < j.block && j.input + j.block <= size
  {}

  lemma StepIs(j: Job, m: seq<byte>, c: Cursor, k: nat)
    requires Ok(j, |m|) && k < j.Count() && AtBlock(j, c, k)
    ensures 0 <= c.inPtr && c.inPtr + j.block <= |m| && 0 <= c.outPtr && c.outPtr + j.block <= |m|
    ensures j.hasXor ==> 0 <= c.xorPtr && c.xorPtr + j.block <= |m|
    ensures j.flags.counter ==> 0 < j.block && j.input + j.block <= |m|
    ensures var inb, m1 := m[c.inPtr..c.inPtr + j.block], Counted(j, m, 1);
      var fb := j.f(MaskedIf(j.hasXor && j.flags.xorInput, m, c.xorPtr, inb));
      && |fb| == j.block
      && Step(j, m, k) == Splice(m1, c.outPtr, MaskedIf(j.hasXor && !j.flags.xorInput, m1, c.xorPtr, fb))
  {
    BlockFits(j, |m|, k);
    StepAt(j, m, k);
    hide *;
    AtBlockIs(j, c, k);
  }

  lemma AtBlockIs(j: Job, c: Cursor, k: nat)
    requires AtBlock(j, c, k)
    ensures c.inPtr == InAt(j, k) && (j.hasXor ==> c.xorPtr == XorAt(j, k)) && c.outPtr == OutAt(j, k)
  {}

  lemma OneOctetBumped(m: seq<byte>, p: int, b: nat)
    requires 0 <= p && b > 0 && p + b <= |m|
    ensures m[p + b - 1 := Octet(m[p + b - 1] as int + 1)] == Splice(m, p, Bump(Slice(m, p, b), 1))
  {}

  /** while (length >= blockSize): block after block, every pointer by its increment. */
  method BlockLoop(j: Job, mem: array<byte>, c0: Cursor, steps: Steps, ghost k0: nat) returns (length: nat)
    requires Ok(j, mem.Length) && k0 <= j.Count() && AtBlock(j, c0, k0) && steps == StepsOf(j, j.block)
    modifies mem
    ensures mem[..] == SerialRun(j, old(mem[..]), k0, j.Count() - k0)
    ensures length == j.length - Span(j.block, j.Count())
  {
    hide SerialRun, Step, Ok, AtBlock, StepsOf;
    ghost var m0, k := mem[..], k0;
    var c := c0;
    SerialRunNone(j, m0, k0);
    while c.length >= j.block
      invariant k0 <= k <= j.Count() && AtBlock(j, c, k)
      invariant mem[..] == SerialRun(j, m0, k0, k - k0)
      decreases j.Count() - k
    {
      NextBlock(j, mem.Length, c, k);
      SerialRunLast(j, m0, k0, k - k0 + 1);
      SingleBlock(j, mem, c, k);
      c := Cursor(c.inPtr + steps.inInc, c.xorPtr + steps.xorInc, c.outPtr + steps.outInc, c.length - j.block);
      k := k + 1;
    }
    LastBlock(j, mem.Length, c, k);
    length := c.length;
  }

  /** Adding the increments moves every pointer to the next block. */
  lemma NextBlock(j: Job, size: nat, c: Cursor, k: nat)
    requires Ok(j, size) && k <= j.Count() && AtBlock(j, c, k) && c.length >= j.block
    ensures k < j.Count()
    ensures var s := StepsOf(j, j.block);
      AtBlock(j, Cursor(c.inPtr + s.inInc, c.xorPtr + s.xorInc, c.outPtr + s.outInc, c.length - j.block), k + 1)
  {}

  lemma LastBlock(j: Job, size: nat, c: Cursor, k: nat)
    requires Ok(j, size) && k <= j.Count() && AtBlock(j, c, k) && c.length < j.block
    ensures k == j.Count() && c.length == j.length - Span(j.block, j.Count())
  {}

  // ----- the templates

  /** Pointers to the first word of 16 octets in the direction of the call. */
  function Start(j: Job): Cursor {
    var d := if j.flags.reverse then j.length as int - 16 else 0;
    Cursor(j.input + d, j.xor + d, j.output + d, j.length)
  }

  lemma StartIsFirst(j: Job, size: nat)
    requires Ok(j, size)
    ensures AtWord(j, Start(j), 0) && (j.block == 16 ==> AtBlock(j, Start(j), 0))
  {}

  lemma WordIsBlock(j: Job, c: Cursor, k: nat)
    requires j.block == 16 && AtWord(j, c, k)
    ensures AtBlock(j, c, k)
  {}

  lemma SizesArePositive(a: nat, b: nat)
    requires a > 0 && b > 0
    ensures Positive([]) && Positive([a]) && Positive([a, b])
    ensures [a][1..] == [] && [a, b][1..] == [b]
  {}

  lemma OneBatchSize(j: Job, m: seq<byte>, k: nat, a: nat)
    requires Ok(j, |m|) && !j.flags.stationary && k <= j.Count() && a > 0
    ensures Positive([a])
    ensures Batched(j, m, k, [a])
         == SerialRun(j, Batches(j, m, k, a).0, Batches(j, m, k, a).1, j.Count() - Batches(j, m, k, a).1)
  {
    hide *;
    SizesArePositive(a, a);
    BatchedStep(j, m, k, [a]);
    BatchedStep(j, Batches(j, m, k, a).0, Batches(j, m, k, a).1, []);
  }

  lemma TwoBatchSizes(j: Job, m: seq<byte>, a: nat, b: nat)
    requires Ok(j, |m|) && !j.flags.stationary && a > 0 && b > 0
    ensures Positive([a, b]) && 0 <= j.Count()
    ensures Batched(j, m, 0, [a, b]) == Batched(j, Batches(j, m, 0, a).0, Batches(j, m, 0, a).1, [b])
  {
    hide *;
    SizesArePositive(a, b);
    CountIsNat(j, |m|);
    BatchedStep(j, m, 0, [a, b]);
  }

  lemma CountIsNat(j: Job, size: nat)
    requires Ok(j, size)
    ensures 0 <= j.Count()
  {}

  /** What a call leaves: batched when parallel processing is allowed, serial otherwise. */
  ghost function Processed(j: Job, m: seq<byte>, sizes: seq<nat>): seq<byte>
    requires Ok(j, |m|) && Positive(sizes) && (j.flags.parallel ==> !j.flags.stationary)
  {
    Batched(j, m, 0, if j.flags.parallel then sizes else [])
  }

  method AdvancedProcessBlocks128_6x2(j: Job, mem: array<byte>) returns (length: nat)
    requires Ok(j, mem.Length) && j.block == 16 && !(j.flags.parallel && j.flags.stationary)
    modifies mem
    ensures length == j.length % 16
    ensures Positive([6, 2]) && mem[..] == Processed(j, old(mem[..]), [6, 2])
  {
    hide Batched, Batches, SerialRun, Ok, AtWord, AtBlock;
    ghost var m, k: nat := mem[..], 0;
    var c := Start(j);
    StartIsFirst(j, mem.Length);
    if j.flags.parallel {
      TwoBatchSizes(j, m, 6, 2);
      c, k := BatchLoop(j, mem, c, 6, false, k);
      OneBatchSize(j, mem[..], k, 2);
      c, k := BatchLoop(j, mem, c, 2, false, k);
      WordIsBlock(j, c, k);
    } else {
      BatchedStep(j, m, 0, []);
    }
    length := BlockLoop(j, mem, c, StepsOf(j, 16), k);
  }

  method AdvancedProcessBlocks128_4x1(j: Job, mem: array<byte>) returns (length: nat)
    requires Ok(j, mem.Length) && j.block == 16 && !(j.flags.parallel && j.flags.stationary)
    modifies mem
    ensures length == j.length % 16
    ensures Positive([4]) && mem[..] == Processed(j, old(mem[..]), [4])
  {
    hide Batched, Batches, SerialRun, Ok, AtWord, AtBlock;
    ghost var m, k: nat := mem[..], 0;
    var c := Start(j);
    StartIsFirst(j, mem.Length);
    if j.flags.parallel {
      OneBatchSize(j, m, 0, 4);
      c, k := BatchLoop(j, mem, c, 4, false, k);
      WordIsBlock(j, c, k);
    } else {
      BatchedStep(j, m, 0, []);
    }
    length := BlockLoop(j, mem, c, StepsOf(j, 16), k);
  }

  /** From word increments and pointers to those of 8-octet blocks. */
  function Adjusted(j: Job, c: Cursor, s: Steps): (Cursor, Steps) {
    if j.flags.reverse then
      var s' := Steps(s.inInc + (if s.inInc != 0 then 8 else 0), s.xorInc + (if s.xorInc != 0 then 8 else 0),
                      s.outInc + (if s.outInc != 0 then 8 else 0));
      (Cursor(c.inPtr - s'.inInc, c.xorPtr - s'.xorInc, c.outPtr - s'.outInc, c.length), s')
    else
      (c, Steps(s.inInc - (if s.inInc != 0 then 8 else 0), s.xorInc - (if s.xorInc != 0 then 8 else 0),
                s.outInc - (if s.outInc != 0 then 8 else 0)))
  }

  /** The adjustment puts every pointer on the first block not yet processed, in either direction. */
  lemma AdjustmentIsExact(j: Job, size: nat, c: Cursor, k: nat)
    requires Ok(j, size) && j.block == 8 && AtWord(j, c, k)
    ensures var (c', s') := Adjusted(j, c, StepsOf(j, 16)); AtBlock(j, c', k) && s' == StepsOf(j, 8)
  {}

  /** if (length): from words to blocks of 8 octets, one at a time. */
  method Tail64(j: Job, mem: array<byte>, c: Cursor, ghost k: nat) returns (length: nat)
    requires Ok(j, mem.Length) && j.block == 8 && k <= j.Count() && AtWord(j, c, k)
    modifies mem
    ensures length == j.length - Span(8, j.Count())
    ensures mem[..] == SerialRun(j, old(mem[..]), k, j.Count() - k)
  {
    AdjustmentIsExact(j, mem.Length, c, k);
    hide *;
    if c.length != 0 {
      var (c', steps) := Adjusted(j, c, StepsOf(j, 16));
      length := BlockLoop(j, mem, c', steps, k);
    } else {
      NothingLeft(j, mem.Length, c, k);
      SerialRunNone(j, mem[..], k);
      length := 0;
    }
  }

  method AdvancedProcessBlocks64_6x2(j: Job, mem: array<byte>) returns (length: nat)
    requires Ok(j, mem.Length) && j.block == 8 && !(j.flags.parallel && j.flags.stationary)
    modifies mem
    ensures length == j.length % 8
    ensures Positive([6, 2]) && mem[..] == Processed(j, old(mem[..]), [6, 2])
  {
    hide Batched, Batches, SerialRun, Ok, AtWord;
    ghost var m, k: nat := mem[..], 0;
    var c := Start(j);
    StartIsFirst(j, mem.Length);
    if j.flags.parallel {
      TwoBatchSizes(j, m, 6, 2);
      c, k := BatchLoop(j, mem, c, 6, false, k);
      OneBatchSize(j, mem[..], k, 2);
      c, k := BatchLoop(j, mem, c, 2, true, k);
    } else {
      BatchedStep(j, m, 0, []);
    }
    length := Tail64(j, mem, c, k);
  }

  lemma NothingLeft(j: Job, size: nat, c: Cursor, k: nat)
    requires Ok(j, size) && j.block == 8 && AtWord(j, c, k) && c.length == 0 && k <= j.Count()
    ensures k == j.Count() && j.length - Span(8, j.Count()) == 0
  {}

  /**
   Batched is serial: a call leaves what processing one block at a time leaves, if no block in
   flight is overtaken, or if the input masks itself, or without parallel processing.
   */
  lemma ProcessedIsSerial(j: Job, m: seq<byte>, sizes: seq<nat>)
    requires Ok(j, |m|) && Positive(sizes)
    requires j.flags.parallel ==> !j.flags.stationary && (SafeFor(j, sizes) || SelfMasked(j))
    ensures Processed(j, m, sizes) == SerialRun(j, m, 0, j.Count())
  {
    BatchedIsSerial(j, m, 0, if j.flags.parallel then sizes else []);
  }
}
