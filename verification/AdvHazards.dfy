/**
 Why callers have to keep the areas apart: in an unsafe layout a fixed permutation of blocks
 on the all-zero memory makes the result differ. With the proofs that safe layouts are handled
 correctly, this settles which layouts are.
 */
module AdvHazards {
  import opened Bytes
  import opened Ciphers
  import opened XorBlocks
  import opened Lanes
  import opened AdvBlocks
  import opened AdvBatches
  import opened AdvWindows
  import opened AdvTemplates

  // ----- block functions, memories, and what a call should leave

  /** All pointers move. */
  predicate Moving(j: Job) {
    !j.flags.counter && !j.flags.stationary
  }

  /** The same call with another block function. */
  function With(j: Job, f: seq<byte> -> seq<byte>): Job {
    j.(f := f)
  }

  ghost predicate Fits(j: Job, f: seq<byte> -> seq<byte>, size: nat, m: seq<byte>) {
    BlockFunction(f, j.block) && |m| == size
  }

  /** Single blocks leave in every block the value computed from the memory before the call. */
  ghost predicate Meets(j: Job, m: seq<byte>)
    requires Ok(j, |m|)
  {
    Outcome(j, m, SerialRun(j, m, 0, j.Count()), 0, j.Count())
  }

  // ----- the memory on the way

  /** The memory after the first k blocks. */
  ghost function After(j: Job, m: seq<byte>, k: nat): (s: seq<byte>)
    requires Ok(j, |m|) && k <= j.Count()
    ensures |s| == |m|
  {
    SerialRun(j, m, 0, k)
  }

  lemma AfterStep(j: Job, m: seq<byte>, k: nat)
    requires Ok(j, |m|) && k < j.Count()
    ensures After(j, m, k + 1) == Step(j, After(j, m, k), k)
  {
    hide Step, Ok, Job.Count;
    SerialRunLast(j, m, 0, k + 1);
  }

  lemma AfterNone(j: Job, m: seq<byte>)
    requires Ok(j, |m|) && 0 <= j.Count()
    ensures After(j, m, 0) == m
  {
    hide Step, Ok, Job.Count;
  }

  /** What blocks k to n-1 do not write stays. */
  lemma AfterKeeps(j: Job, m: seq<byte>, k: nat, n: nat, a: nat)
    requires Ok(j, |m|) && !j.flags.stationary && k <= n <= j.Count() && a < |m|
    requires !Written(j, k, n - k, a) && !InCounter(j, a)
    ensures After(j, m, n)[a] == After(j, m, k)[a]
  {
    hide SerialRun, Ok, Written, Job.Count;
    RestKeeps(j, m, 0, k, n, k, a);
  }

  lemma ClearOfCounter(j: Job, size: nat, i: nat, a: nat)
    requires Ok(j, size) && !j.flags.stationary && CounterClear(j, j.Count()) && i < j.Count()
    requires OutAt(j, i) <= a < OutAt(j, i) + j.block
    ensures !InCounter(j, a)
  {}

  /** An octet of block i keeps, from the moment it is written, what it has in the end. */
  lemma StaysAsWritten(j: Job, m: seq<byte>, i: nat, k: nat, n: nat, a: nat)
    requires Ok(j, |m|) && !j.flags.stationary && CounterClear(j, j.Count()) && i < k <= n == j.Count() && a < |m|
    requires OutAt(j, i) <= a < OutAt(j, i) + j.block
    ensures After(j, m, k)[a] == After(j, m, n)[a]
  {
    hide *;
    ClearOfCounter(j, |m|, i, a);
    BlockIsWritten(j, |m|, i, k, n - k, a);
    AfterKeeps(j, m, k, n, a);
  }

  /** The counter has moved once for every block. */
  lemma {:induction false} CounterRuns(j: Job, m: seq<byte>, k: nat)
    requires Ok(j, |m|) && !j.flags.stationary && j.flags.counter && CounterClear(j, j.Count()) && k <= j.Count()
    requires 0 < j.block && j.input + j.block <= |m|
    ensures Slice(After(j, m, k), j.input, j.block) == Bump(Slice(m, j.input, j.block), k)
  {
    hide *;
    if k == 0 {
      AfterNone(j, m);
      BumpZero(Slice(m, j.input, j.block));
    } else {
      CounterRuns(j, m, k - 1);
      AfterStep(j, m, k - 1);
      CounterSteps(j, m, After(j, m, k - 1), k - 1, k);
    }
  }

  lemma CounterSteps(j: Job, m: seq<byte>, s: seq<byte>, k: nat, next: nat)
    requires Ok(j, |m|) && !j.flags.stationary && j.flags.counter && CounterClear(j, j.Count()) && next == k + 1 <= j.Count()
    requires 0 < j.block && j.input + j.block <= |m| == |s|
    requires Slice(s, j.input, j.block) == Bump(Slice(m, j.input, j.block), k)
    ensures Slice(Step(j, s, k), j.input, j.block) == Bump(Slice(m, j.input, j.block), next)
  {
    StepIsSplice(j, s, k);
    CounterApart(j, |m|, j.Count(), k);
    hide Step, StepResult, CounterClear, Ok, Splice, Slice, Bump;
    var c := Slice(s, j.input, j.block);
    SpliceInside(s, j.input, Bump(c, 1));
    SpliceOutside(Counted(j, s, 1), OutAt(j, k), StepResult(j, s, k), j.input, j.block);
    BumpBump(Slice(m, j.input, j.block), k, 1);
  }

  lemma MetValue(j: Job, m: seq<byte>, i: nat)
    requires Ok(j, |m|) && i < j.Count() && Meets(j, m)
    ensures 0 <= OutAt(j, i) && OutAt(j, i) + j.block <= |m|
    ensures Slice(After(j, m, j.Count()), OutAt(j, i), j.block) == Value(j, m, 0, i)
  {
    BlockFits(j, |m|, i);
    assert HasValue(j, m, After(j, m, j.Count()), 0, i);
  }

  /** If the call meets its values, every step on the way makes the value of its block. */
  lemma StepMakesValue(j: Job, m: seq<byte>, k: nat, next: nat, t: nat, o: nat)
    requires Ok(j, |m|) && !j.flags.stationary && CounterClear(j, j.Count()) && Meets(j, m) && next == k + 1 <= j.Count()
    requires t < j.block && o == OutAt(j, k) + t
    ensures |Value(j, m, 0, k)| == j.block && StepResult(j, After(j, m, k), k)[t] == Value(j, m, 0, k)[t]
  {
    hide *;
    var s := After(j, m, k);
    MetValue(j, m, k);
    ValueSize(j, m, 0, k);
    StepIsSplice(j, s, k);
    AfterStep(j, m, k);
    SliceAt(After(j, m, j.Count()), OutAt(j, k), j.block, o);
    StaysAsWritten(j, m, k, next, j.Count(), o);
    SpliceInside(Counted(j, s, 1), OutAt(j, k), StepResult(j, s, k));
    SliceAt(After(j, m, next), OutAt(j, k), j.block, o);
  }

  // ----- a revealing permutation, octet by octet

  function Added(d: nat, b: seq<byte>): (r: seq<byte>)
    ensures |r| == |b|
    ensures forall i :: 0 <= i < |b| ==> r[i] == Octet(b[i] as int + d)
  {
    seq(|b|, i requires 0 <= i < |b| => Octet(b[i] as int + d))
  }

  /** Adds `d` to every octet. */
  function Plus(d: nat): seq<byte> -> seq<byte> {
    b => Added(d, b)
  }

  lemma AddedBack(b: seq<byte>, d: nat, e: nat)
    requires d + e == 256
    ensures Added(e, Added(d, b)) == b
  {
    forall i | 0 <= i < |b| ensures Added(e, Added(d, b))[i] == b[i] {
      assert Octet(Octet(b[i] as int + d) as int + e) == b[i];
    }
  }

  lemma PlusIsPermutation(d: nat, size: nat)
    requires 0 < d < 256
    ensures BlockPermutation(Plus(d), size) && BlockFunction(Plus(d), size)
  {
    var f, g := Plus(d), Plus(256 - d);
    forall b: seq<byte> | |b| == size ensures |f(b)| == size && |g(b)| == size && g(f(b)) == b && f(g(b)) == b {
      AddedBack(b, d, 256 - d);
      AddedBack(b, 256 - d, d);
    }
    assert Undoes(g, f, size);
  }

  /** What becomes of input octet x under mask octet y. */
  function Made(j: Job, d: nat, x: byte, y: byte): byte {
    if !j.hasXor then Octet(x as int + d)
    else if j.flags.xorInput then Octet(XorByte(x, y) as int + d)
    else XorByte(Octet(x as int + d), y)
  }

  lemma XorByteCancels(x: byte, y: byte, y': byte)
    requires XorByte(x, y) == XorByte(x, y')
    ensures y == y'
  {
    XorBitsCommute(x, y, 8);
    XorBitsCommute(x, y', 8);
    XorByteInvolution(y, x);
    XorByteInvolution(y', x);
  }

  lemma OctetCancels(x: byte, y: byte, d: nat)
    requires Octet(x as int + d) == Octet(y as int + d)
    ensures x == y
  {}

  lemma OctetsDiffer(x: byte)
    ensures Octet(x as int + 1) != Octet(x as int + 2)
  {}

  /** Different masks make different octets. */
  lemma MadeInMask(j: Job, d: nat, x: byte, y: byte, y': byte)
    requires j.hasXor && Made(j, d, x, y) == Made(j, d, x, y')
    ensures y == y'
  {
    hide XorByte, Octet;
    if j.flags.xorInput {
      OctetCancels(XorByte(x, y), XorByte(x, y'), d);
      XorByteCancels(x, y, y');
    } else {
      XorByteCancels(Octet(x as int + d), y, y');
    }
  }

  /** Two different additions make different octets. */
  lemma MadeInAddend(j: Job, x: byte, y: byte)
    ensures Made(j, 1, x, y) != Made(j, 2, x, y)
  {
    hide XorByte, Octet;
    var u, v := Octet(x as int + 1), Octet(x as int + 2);
    OctetsDiffer(x);
    OctetsDiffer(XorByte(x, y));
    XorBitsCommute(u, y, 8);
    XorBitsCommute(v, y, 8);
    if j.hasXor && !j.flags.xorInput && XorByte(u, y) == XorByte(v, y) {
      XorByteSwaps(u, y);
      XorByteSwaps(v, y);
      XorByteCancels(y, u, v);
    }
  }

  lemma XorByteSwaps(x: byte, y: byte)
    ensures XorByte(x, y) == XorByte(y, x)
  {
    XorBitsCommute(x, y, 8);
  }

  /** The mask octet that belongs to octet t of block k. */
  ghost function MaskOctet(j: Job, m: seq<byte>, k: nat, t: nat): byte
    requires Ok(j, |m|) && k < j.Count() && t < j.block
  {
    BlockFits(j, |m|, k);
    if j.hasXor then m[XorAt(j, k) + t] else 0
  }

  ghost function InOctet(j: Job, m: seq<byte>, k: nat, t: nat): byte
    requires Ok(j, |m|) && k < j.Count() && t < j.block
  {
    BlockFits(j, |m|, k);
    m[InAt(j, k) + t]
  }

  /** The memory a step reads its mask from. */
  function Masking(j: Job, m: seq<byte>): (m': seq<byte>)
    requires j.flags.counter ==> 0 < j.block && j.input + j.block <= |m|
    ensures |m'| == |m|
  {
    if j.flags.xorInput then m else Counted(j, m, 1)
  }

  lemma TransformOctet(j: Job, d: nat, inb: seq<byte>, mask: seq<byte>, t: nat)
    requires j.f == Plus(d) && t < |inb| && (j.hasXor ==> |mask| == |inb|)
    ensures |j.f(inb)| == |inb| && (j.hasXor ==> |j.f(Xor(inb, mask))| == |inb|)
    ensures |Transform(j, inb, mask)| == |inb|
    ensures Transform(j, inb, mask)[t] == Made(j, d, inb[t], if j.hasXor then mask[t] else 0)
  {
    hide Octet, XorByte;
    assert j.f(inb) == Added(d, inb);
    if j.hasXor {
      assert j.f(Xor(inb, mask)) == Added(d, Xor(inb, mask));
    }
  }

  lemma MaskAt(j: Job, m: seq<byte>, k: nat, t: nat)
    requires Ok(j, |m|) && k < j.Count() && t < j.block && j.hasXor
    ensures |Mask(j, m, k)| == j.block && Mask(j, m, k)[t] == MaskOctet(j, m, k, t)
  {
    BlockFits(j, |m|, k);
    SliceAt(m, XorAt(j, k), j.block, XorAt(j, k) + t);
  }

  lemma InAtOctet(j: Job, m: seq<byte>, k: nat, t: nat)
    requires Ok(j, |m|) && k < j.Count() && t < j.block
    ensures 0 <= InAt(j, k) && InAt(j, k) + j.block <= |m|
    ensures Slice(m, InAt(j, k), j.block)[t] == InOctet(j, m, k, t)
  {
    BlockFits(j, |m|, k);
    SliceAt(m, InAt(j, k), j.block, InAt(j, k) + t);
  }

  lemma StepTransforms(j: Job, m: seq<byte>, k: nat)
    requires Ok(j, |m|) && k < j.Count() && 0 <= InAt(j, k) && InAt(j, k) + j.block <= |m|
    ensures j.flags.counter ==> 0 < j.block && j.input + j.block <= |m|
    ensures var inb := Slice(m, InAt(j, k), j.block);
      && |j.f(inb)| == |inb| && (j.hasXor ==> |j.f(Xor(inb, Mask(j, Masking(j, m), k)))| == |inb|)
      && StepResult(j, m, k) == Transform(j, inb, Mask(j, Masking(j, m), k))
  {
    BlockFits(j, |m|, k);
    hide InAt, XorAt, Bump, Splice, InMemory, Slice, Xor;
  }

  lemma ValueTransforms(j: Job, m: seq<byte>, k: nat)
    requires Ok(j, |m|) && k < j.Count() && 0 <= InAt(j, k) && InAt(j, k) + j.block <= |m|
    ensures j.flags.counter ==> InAt(j, k) == j.input && j.block > 0
    ensures var c := Slice(m, InAt(j, k), j.block);
      var inb := if j.flags.counter then Bump(c, k) else c;
      && |j.f(inb)| == |inb| && (j.hasXor ==> |j.f(Xor(inb, Mask(j, m, k)))| == |inb|)
      && Value(j, m, 0, k) == Transform(j, inb, Mask(j, m, k))
  {
    BlockFits(j, |m|, k);
    hide XorAt, Bump, InMemory, Slice, Xor;
  }

  lemma StepOctet(j: Job, d: nat, m: seq<byte>, k: nat, t: nat)
    requires Ok(j, |m|) && j.f == Plus(d) && k < j.Count() && t < j.block
    ensures j.flags.counter ==> 0 < j.block && j.input + j.block <= |m|
    ensures StepResult(j, m, k)[t] == Made(j, d, InOctet(j, m, k, t), MaskOctet(j, Masking(j, m), k, t))
  {
    hide *;
    BlockFits(j, |m|, k);
    StepTransforms(j, m, k);
    InAtOctet(j, m, k, t);
    var inb, mask: seq<byte> := Slice(m, InAt(j, k), j.block), Mask(j, Masking(j, m), k);
    if j.hasXor { MaskAt(j, Masking(j, m), k, t); } else { Unmasked(j, Masking(j, m), k, t); }
    TransformOctet(j, d, inb, mask, t);
  }

  lemma Unmasked(j: Job, m: seq<byte>, k: nat, t: nat)
    requires Ok(j, |m|) && k < j.Count() && t < j.block && !j.hasXor
    ensures MaskOctet(j, m, k, t) == 0
  {}

  /** The input octet a value is computed from: of the input area, or of the counter moved on. */
  ghost function ValueIn(j: Job, m: seq<byte>, k: nat, t: nat): byte
    requires Ok(j, |m|) && k < j.Count() && t < j.block
  {
    BlockFits(j, |m|, k);
    if j.flags.counter then Bump(Slice(m, j.input, j.block), k)[t] else InOctet(j, m, k, t)
  }

  lemma ValueInIs(j: Job, m: seq<byte>, k: nat, t: nat)
    requires Ok(j, |m|) && k < j.Count() && t < j.block && 0 <= InAt(j, k) && InAt(j, k) + j.block <= |m|
    ensures j.flags.counter ==> InAt(j, k) == j.input
    ensures var c := Slice(m, InAt(j, k), j.block);
      (if j.flags.counter then Bump(c, k) else c)[t] == ValueIn(j, m, k, t)
  {
    InAtOctet(j, m, k, t);
  }

  lemma ValueOctet(j: Job, d: nat, m: seq<byte>, k: nat, t: nat)
    requires Ok(j, |m|) && j.f == Plus(d) && k < j.Count() && t < j.block
    ensures |Value(j, m, 0, k)| == j.block
    ensures Value(j, m, 0, k)[t] == Made(j, d, ValueIn(j, m, k, t), MaskOctet(j, m, k, t))
  {
    hide *;
    BlockFits(j, |m|, k);
    ValueSize(j, m, 0, k);
    ValueTransforms(j, m, k);
    ValueInIs(j, m, k, t);
    var c := Slice(m, InAt(j, k), j.block);
    var inb, mask: seq<byte> := if j.flags.counter then Bump(c, k) else c, Mask(j, m, k);
    if j.hasXor { MaskAt(j, m, k, t); } else { Unmasked(j, m, k, t); }
    TransformOctet(j, d, inb, mask, t);
  }

  // ----- pointers that move: zeros before, ones in every written octet

  lemma SmallMade(j: Job, x: byte, y: byte)
    requires x <= 1 && y <= 1 && (!j.hasXor ==> y == 0)
    ensures Made(j, 1, x, y) == 1 <==> !Reveals(j, x == 1, y == 1)
  {
    SmallXors();
    hide XorByte;
  }

  lemma SmallXors()
    ensures XorByte(0, 0) == 0 && XorByte(0, 1) == 1 && XorByte(1, 0) == 1 && XorByte(1, 1) == 0
    ensures XorByte(2, 0) == 2 && XorByte(2, 1) == 3
  {
    HighBits(6);
    assert XorBits(0, 1, 8) == 1 + 2 * XorBits(0, 0, 7) && XorBits(0, 0, 8) == 2 * XorBits(0, 0, 7);
    assert XorBits(1, 0, 8) == 1 + 2 * XorBits(0, 0, 7) && XorBits(1, 1, 8) == 2 * XorBits(0, 0, 7);
    assert XorBits(2, 0, 8) == 2 * XorBits(1, 0, 7) && XorBits(2, 1, 8) == 1 + 2 * XorBits(1, 0, 7);
    assert XorBits(1, 0, 7) == 1 + 2 * XorBits(0, 0, 6) && XorBits(0, 0, 7) == 2 * XorBits(0, 0, 6);
  }

  lemma {:induction false} HighBits(n: nat)
    ensures XorBits(0, 0, n) == 0
  {
    if n > 0 { HighBits(n - 1); }
  }

  /** Which overwritten octets show in the result: of the input, of the mask, or of both. */
  predicate Reveals(j: Job, input: bool, mask: bool) {
    if !j.hasXor then input else if j.flags.xorInput then input != mask else input || mask
  }

  lemma MovingParts(j: Job)
    requires Moving(j)
    ensures !j.flags.counter && !j.flags.stationary && CounterClear(j, j.Count()) && forall a :: !InCounter(j, a)
  {}

  lemma ZeroValue(j: Job, size: nat, k: nat, t: nat)
    requires Ok(j, size) && Moving(j) && j.f == Plus(1) && k < j.Count() && t < j.block
    ensures |Value(j, Repeat(0, size), 0, k)| == j.block && Value(j, Repeat(0, size), 0, k)[t] == 1
  {
    var m := Repeat(0, size);
    BlockFits(j, size, k);
    ValueOctet(j, 1, m, k, t);
    assert ValueIn(j, m, k, t) == 0 && MaskOctet(j, m, k, t) == 0;
    SmallMade(j, 0, 0);
  }

  /** If the call met its values, each state on the way would show which blocks are done. */
  lemma WrittenOctetsAreOnes(j: Job, size: nat, k: nat, a: nat)
    requires Ok(j, size) && Moving(j) && j.f == Plus(1) && k <= j.Count() && a < size
    requires Meets(j, Repeat(0, size))
    ensures After(j, Repeat(0, size), k)[a] == if Written(j, 0, k, a) then 1 else 0
  {
    var m := Repeat(0, size);
    MovingParts(j);
    OkBlock(j, size);
    hide *;
    if Written(j, 0, k, a) {
      var i := WrittenBlock(j, 0, k, a);
      ZeroValue(j, size, i, a - OutAt(j, i));
      MetValue(j, m, i);
      SliceAt(After(j, m, j.Count()), OutAt(j, i), j.block, a);
      StaysAsWritten(j, m, i, k, j.Count(), a);
    } else {
      AfterKeeps(j, m, 0, k, a);
      AfterNone(j, m);
    }
  }

  lemma OkBlock(j: Job, size: nat)
    requires Ok(j, size)
    ensures WellFormed(j) && (j.block == 8 || j.block == 16) && 0 <= j.Count()
  {}

  lemma InputSeen(j: Job, size: nat, k: nat, t: nat)
    requires Ok(j, size) && Moving(j) && j.f == Plus(1) && k < j.Count() && t < j.block && Meets(j, Repeat(0, size))
    ensures InOctet(j, After(j, Repeat(0, size), k), k, t) == if Written(j, 0, k, InAt(j, k) + t) then 1 else 0
  {
    BlockFits(j, size, k);
    hide Written, After, Meets, InAt, Ok;
    WrittenOctetsAreOnes(j, size, k, InAt(j, k) + t);
  }

  lemma MaskSeen(j: Job, size: nat, k: nat, t: nat)
    requires Ok(j, size) && Moving(j) && j.f == Plus(1) && k < j.Count() && t < j.block && Meets(j, Repeat(0, size))
    ensures MaskOctet(j, Masking(j, After(j, Repeat(0, size), k)), k, t)
         == if j.hasXor && Written(j, 0, k, XorAt(j, k) + t) then 1 else 0
  {
    BlockFits(j, size, k);
    hide Written, After, Meets, XorAt, Ok;
    if j.hasXor { WrittenOctetsAreOnes(j, size, k, XorAt(j, k) + t); }
  }

  /** An octet that shows, of an area that was overwritten before it was read. */
  lemma HazardShows(j: Job, size: nat, k: nat, t: nat)
    requires Ok(j, size) && Moving(j) && j.f == Plus(1) && k < j.Count() && t < j.block
    requires Reveals(j, Written(j, 0, k, InAt(j, k) + t), j.hasXor && Written(j, 0, k, XorAt(j, k) + t))
    ensures !Meets(j, Repeat(0, size))
  {
    if Meets(j, Repeat(0, size)) {
      MovingParts(j);
      hide *;
      var s := After(j, Repeat(0, size), k);
      InputSeen(j, size, k, t);
      MaskSeen(j, size, k, t);
      StepOctet(j, 1, s, k, t);
      StepMakesValue(j, Repeat(0, size), k, k + 1, t, OutAt(j, k) + t);
      ZeroValue(j, size, k, t);
      UnmaskedIsZero(j, Masking(j, s), k, t);
      SmallMade(j, InOctet(j, s, k, t), MaskOctet(j, Masking(j, s), k, t));
    }
  }

  lemma UnmaskedIsZero(j: Job, m: seq<byte>, k: nat, t: nat)
    requires Ok(j, |m|) && k < j.Count() && t < j.block
    ensures !j.hasXor ==> MaskOctet(j, m, k, t) == 0
  {}

  // ----- where such an octet lies

  /** By how much the output is ahead of an area, in the direction of the call. */
  function Lead(j: Job, base: int): int {
    if j.flags.reverse then base - j.output else j.output - base
  }

  /** Octet t of block k, counted in the direction of the call, when the output leads by d. */
  predicate Reached(b: nat, d: int, k: nat, t: nat) {
    d <= Span(b, k) + t && t < d
  }

  /** Position t of block k, counted in the direction of the call. */
  function Inside(j: Job, t: nat): int {
    if j.flags.reverse then j.block - 1 - t else t
  }

  lemma WrittenIsReached(j: Job, base: nat, k: nat, t: nat)
    requires WellFormed(j) && Moving(j) && k < j.Count() && t < j.block
    ensures Written(j, 0, k, base + Offset(j, k) + Inside(j, t)) <==> Reached(j.block, Lead(j, base), k, t)
  {}

  lemma AheadIsLead(j: Job, base: int)
    ensures var total := Span(j.block, j.Count());
      Ahead(j.flags.reverse, j.output, base, total) <==> !(0 < Lead(j, base) < total)
  {}

  lemma ReachedSomewhere(b: nat, n: nat, d: int) returns (k: nat, t: nat)
    requires (b == 8 || b == 16) && n >= 2 && 0 < d < Span(b, n)
    ensures k < n && t < b && Reached(b, d, k, t)
    ensures if d >= b then Span(b, k) + t == d else k == 1 && t == 0
  {
    if d < b {
      k, t := 1, 0;
    } else {
      k := if b == 8 then d / 8 else d / 16;
      t := d - Span(b, k);
    }
  }

  /** Two different leads, one of them a hazard, do not reach the same octets. */
  lemma ReachedUnevenly(b: nat, n: nat, d: int, e: int) returns (k: nat, t: nat)
    requires (b == 8 || b == 16) && n >= 2 && d < e && (0 < d < Span(b, n) || 0 < e < Span(b, n))
    ensures k < n && t < b && Reached(b, d, k, t) != Reached(b, e, k, t)
  {
    if d <= 0 {
      k, t := ReachedSomewhere(b, n, e);
    } else if d >= b || e > b {
      k, t := ReachedSomewhere(b, n, d);
    } else {
      k, t := 1, d;
    }
  }

  lemma SafeIsAhead(j: Job)
    requires Moving(j)
    ensures SafeWithin(j, Span(j.block, j.Count())) <==> (
      && Ahead(j.flags.reverse, j.output, j.input, Span(j.block, j.Count()))
      && (j.hasXor ==> Ahead(j.flags.reverse, j.output, j.xor, Span(j.block, j.Count()))))
    ensures Safe(j) <==> SafeWithin(j, Span(j.block, j.Count()))
    ensures forall k :: InAt(j, k) == j.input + Offset(j, k) && XorAt(j, k) == j.xor + Offset(j, k)
  {}

  /** In an unsafe layout that does not mask itself some octet shows. */
  lemma RevealingPlace(j: Job) returns (k: nat, t: nat)
    requires WellFormed(j) && Moving(j) && j.Count() >= 2 && !Safe(j) && !SelfMasked(j)
    ensures k < j.Count() && t < j.block
    ensures Reveals(j, Reached(j.block, Lead(j, j.input), k, t), j.hasXor && Reached(j.block, Lead(j, j.xor), k, t))
  {
    SafeIsAhead(j);
    AheadIsLead(j, j.input);
    AheadIsLead(j, j.xor);
    var b, n, d, e := j.block, j.Count(), Lead(j, j.input), Lead(j, j.xor);
    if j.hasXor && j.flags.xorInput {
      if d < e { k, t := ReachedUnevenly(b, n, d, e); } else { k, t := ReachedUnevenly(b, n, e, d); }
    } else if 0 < d < Span(b, n) {
      k, t := ReachedSomewhere(b, n, d);
    } else {
      k, t := ReachedSomewhere(b, n, e);
    }
  }

  lemma RevealingOctet(j: Job, k: nat, t: nat, t': nat)
    requires WellFormed(j) && Moving(j) && k < j.Count() && t < j.block && t' == Inside(j, t)
    requires Reveals(j, Reached(j.block, Lead(j, j.input), k, t), j.hasXor && Reached(j.block, Lead(j, j.xor), k, t))
    ensures t' < j.block
    ensures Reveals(j, Written(j, 0, k, InAt(j, k) + t'), j.hasXor && Written(j, 0, k, XorAt(j, k) + t'))
  {
    SafeIsAhead(j);
    WrittenIsReached(j, j.input, k, t);
    WrittenIsReached(j, j.xor, k, t);
    hide Written, Reached, Lead, Offset, InAt, XorAt, Reveals;
  }

  lemma WithIsAlike(j: Job, f: seq<byte> -> seq<byte>, size: nat)
    requires Ok(j, size) && BlockFunction(f, j.block)
    ensures Ok(With(j, f), size) && With(j, f).Count() == j.Count() && With(j, f).f == f
    ensures Moving(With(j, f)) == Moving(j) && Safe(With(j, f)) == Safe(j) && SelfMasked(With(j, f)) == SelfMasked(j)
    ensures With(j, f).flags == j.flags && With(j, f).block == j.block && With(j, f).length == j.length
  {}

  /** In every unsafe layout of two blocks or more, adding one to every octet misses a value on zeros. */
  lemma UnsafeShows(j: Job, size: nat)
    requires Ok(j, size) && Moving(j) && j.Count() >= 2 && !Safe(j) && !SelfMasked(j)
    ensures Ok(With(j, Plus(1)), size) && !Meets(With(j, Plus(1)), Repeat(0, size))
  {
    PlusIsPermutation(1, j.block);
    WithIsAlike(j, Plus(1), size);
    hide *;
    var jp := With(j, Plus(1));
    OkBlock(jp, size);
    var k, t := RevealingPlace(jp);
    InsideIsNat(jp, t);
    RevealingOctet(jp, k, t, Inside(jp, t));
    HazardShows(jp, size, k, Inside(jp, t));
  }

  lemma InsideIsNat(j: Job, t: nat)
    requires t < j.block
    ensures 0 <= Inside(j, t)
  {}

  // ----- counters

  /** By how much the counting octet has moved when step k reads its mask. */
  function Shift(j: Job, k: nat): nat {
    if j.flags.xorInput then k else k + 1
  }

  /** Every mask block with the counting octet finds it moved on by a multiple of 256. */
  ghost predicate CountsRound(j: Job) {
    forall k: nat :: k < j.Count() && XorAt(j, k) <= Top(j) < XorAt(j, k) + j.block ==>
      Shift(j, k) % 256 == 0
  }

  /** When single blocks keep their values in spite of the counter they share memory with. */
  ghost predicate CounterKeeps(j: Job) {
    && CounterClear(j, j.Count())
    && (j.hasXor ==> Ahead(j.flags.reverse, j.output, j.xor, Span(j.block, j.Count())) && CountsRound(j))
  }

  lemma RoundBump(x: byte, n: nat)
    requires n % 256 == 0
    ensures Octet(x as int + n) == x
  {}

  lemma TopOctets(j: Job, m: seq<byte>, s: seq<byte>, n: nat)
    requires Ok(j, |m|) && j.flags.counter && 0 < j.block && j.input + j.block <= |m| == |s|
    requires Slice(s, j.input, j.block) == Bump(Slice(m, j.input, j.block), n)
    ensures s[Top(j)] == Octet(m[Top(j)] as int + n)
    ensures Counted(j, s, 1)[Top(j)] == Octet(m[Top(j)] as int + (n + 1))
  {
    SliceAt(s, j.input, j.block, Top(j));
    SliceAt(m, j.input, j.block, Top(j));
    var c := Slice(s, j.input, j.block);
    BumpBump(Slice(m, j.input, j.block), n, 1);
    SpliceInside(s, j.input, Bump(c, 1));
    SliceAt(Counted(j, s, 1), j.input, j.block, Top(j));
    hide Splice;
  }

  /** Step n of such a call finds the mask of the memory before the call. */
  lemma CounterMaskOctet(j: Job, m: seq<byte>, s: seq<byte>, n: nat, t: nat)
    requires Ok(j, |m|) && j.flags.counter && !j.flags.stationary && CounterKeeps(j) && j.hasXor && n < j.Count() && t < j.block
    requires |s| == |m| && Done(j, m, s, 0, n, n)
    ensures j.input + j.block <= |m| && 0 < j.block
    ensures MaskOctet(j, Masking(j, s), n, t) == MaskOctet(j, m, n, t)
  {
    DoneSize(j, m, s, 0, n, n);
    BlockFits(j, |m|, n);
    var a: nat := XorAt(j, n) + t;
    MaskAddress(j, n, t, a);
    hide *;
    MaskInMemory(j, m, n, t, a);
    MaskInMemory(j, Masking(j, s), n, t, a);
    if a == Top(j) {
      MaskingTop(j, m, s, n, a);
      RoundBump(m[a], Shift(j, n));
    } else {
      NotTop(j, a);
      MaskingElsewhere(j, s, a);
      DoneElsewhere(j, m, s, n, a);
    }
  }

  lemma MaskAddress(j: Job, k: nat, t: nat, a: nat)
    requires WellFormed(j) && j.flags.counter && CounterKeeps(j) && j.hasXor && k < j.Count() && t < j.block
    requires a == XorAt(j, k) + t
    requires !j.flags.stationary
    ensures a == Top(j) ==> Shift(j, k) % 256 == 0
    ensures !Written(j, 0, k, a)
  {
    LaterBlockAhead(j, j.xor, 0, k, k, a);
  }

  lemma NotTop(j: Job, a: nat)
    requires a != Top(j)
    ensures !InCounter(j, a)
  {}

  lemma DoneElsewhere(j: Job, m: seq<byte>, s: seq<byte>, n: nat, a: nat)
    requires Ok(j, |m|) && n <= j.Count() && Done(j, m, s, 0, n, n) && a < |m| && !Written(j, 0, n, a) && !InCounter(j, a)
    ensures |s| == |m| && s[a] == m[a]
  {}

  lemma CounterReads(j: Job, m: seq<byte>, s: seq<byte>, n: nat)
    requires Ok(j, |m|) && j.flags.counter && !j.flags.stationary && CounterKeeps(j) && n < j.Count()
    requires |s| == |m| && Outcome(j, m, s, 0, n)
    ensures ReadsValue(j, m, s, 0, n)
  {
    OutcomeIsDone(j, m, s, 0, n);
    DoneSize(j, m, s, 0, n, n);
    BlockFits(j, |m|, n);
    StepTransforms(j, s, n);
    ValueTransforms(j, m, n);
    CounterStays(j, n);
    hide Done, Ok, StepResult, Value, CounterKeeps;
    var x, y := Mask(j, Masking(j, s), n), Mask(j, m, n);
    if j.hasXor {
      forall t | 0 <= t < j.block ensures x[t] == y[t] {
        CounterMaskOctet(j, m, s, n, t);
        MaskAt(j, Masking(j, s), n, t);
        MaskAt(j, m, n, t);
      }
      assert x == y;
    }
    hide Transform, Masking, InAt;
  }

  lemma CounterStays(j: Job, k: nat)
    requires j.flags.counter
    ensures InAt(j, k) == j.input
  {}

  lemma CounterMeets(j: Job, m: seq<byte>)
    requires Ok(j, |m|) && j.flags.counter && !j.flags.stationary && CounterKeeps(j)
    ensures Meets(j, m)
  {
    var n := j.Count();
    assert CounterClear(j, 0 + n);
    assert ReadsWell(j, m, 0, n) by {
      hide Outcome, ReadsValue, CounterKeeps;
      forall t: nat, m1 | t < n && |m1| == |m| && Outcome(j, m, m1, 0, t) ensures ReadsValue(j, m, m1, 0, t) {
        CounterReads(j, m, m1, t);
      }
    }
    hide Outcome, ReadsWell, Ok, SerialRun;
    SerialDone(j, m, 0, n);
  }

  // ----- counters: what shows the rest

  lemma AlikeOctets(j: Job, f: seq<byte> -> seq<byte>, m: seq<byte>, k: nat, t: nat)
    requires Ok(j, |m|) && Ok(With(j, f), |m|) && k < j.Count() && t < j.block
    ensures k < With(j, f).Count() && With(j, f).block == j.block && With(j, f).f == f
    ensures ValueIn(With(j, f), m, k, t) == ValueIn(j, m, k, t) && MaskOctet(With(j, f), m, k, t) == MaskOctet(j, m, k, t)
    ensures forall d, x, y :: Made(With(j, f), d, x, y) == Made(j, d, x, y)
  {}

  /** The value octets of one block under two additions differ. */
  lemma ValuesDiffer(j: Job, m: seq<byte>, k: nat, t: nat)
    requires Ok(j, |m|) && k < j.Count() && t < j.block && Ok(With(j, Plus(1)), |m|) && Ok(With(j, Plus(2)), |m|)
    ensures k < With(j, Plus(1)).Count() && |Value(With(j, Plus(1)), m, 0, k)| == j.block
    ensures k < With(j, Plus(2)).Count() && |Value(With(j, Plus(2)), m, 0, k)| == j.block
    ensures Value(With(j, Plus(1)), m, 0, k)[t] != Value(With(j, Plus(2)), m, 0, k)[t]
  {
    hide *;
    AlikeOctets(j, Plus(1), m, k, t);
    AlikeOctets(j, Plus(2), m, k, t);
    ValueOctet(With(j, Plus(1)), 1, m, k, t);
    ValueOctet(With(j, Plus(2)), 2, m, k, t);
    MadeInAddend(j, ValueIn(j, m, k, t), MaskOctet(j, m, k, t));
  }

  /** An octet shared by the counter and an output block. */
  lemma SharedOctet(j: Job, size: nat) returns (k: nat, a: nat)
    requires Ok(j, size) && !j.flags.stationary && !CounterClear(j, j.Count())
    ensures j.flags.counter && k < j.Count() && OutAt(j, k) <= a < OutAt(j, k) + j.block
    ensures j.input <= a < j.input + j.block && j.input + j.block <= size && 0 < j.block
  {
    a := if j.input <= j.output then j.output else j.input;
    k := WrittenBlock(j, 0, j.Count(), a);
  }

  lemma FinalOctet(j: Job, m: seq<byte>, k: nat, a: nat)
    requires Ok(j, |m|) && k < j.Count() && OutAt(j, k) <= a < OutAt(j, k) + j.block && Meets(j, m)
    ensures a < |m| && |Value(j, m, 0, k)| == j.block
    ensures After(j, m, j.Count())[a] == Value(j, m, 0, k)[a - OutAt(j, k)]
  {
    MetValue(j, m, k);
    ValueSize(j, m, 0, k);
    hide Meets, Value, After, OutAt, Ok;
    SliceAt(After(j, m, j.Count()), OutAt(j, k), j.block, a);
  }

  lemma FinalCounter(j: Job, m: seq<byte>, a: nat)
    requires Ok(j, |m|) && j.flags.counter && Meets(j, m) && j.input <= a < j.input + j.block <= |m| && 0 < j.block
    ensures After(j, m, j.Count())[a] == Bump(Slice(m, j.input, j.block), j.Count())[a - j.input]
  {
    CounterInTheEnd(j, m);
    hide *;
    SliceAt(After(j, m, j.Count()), j.input, j.block, a);
  }

  lemma CounterInTheEnd(j: Job, m: seq<byte>)
    requires Ok(j, |m|) && j.flags.counter && Meets(j, m) && j.input + j.block <= |m| && 0 < j.block
    ensures Slice(After(j, m, j.Count()), j.input, j.block) == Bump(Slice(m, j.input, j.block), j.Count())
  {
    hide HasValue, Written, InCounter, Slice, Bump, SerialRun, Ok, Job.Count;
  }

  lemma PlusFits(j: Job, size: nat, d: nat)
    requires Ok(j, size) && 0 < d < 256
    ensures Ok(With(j, Plus(d)), size) && With(j, Plus(d)).f == Plus(d) && With(j, Plus(d)).Count() == j.Count()
    ensures BlockPermutation(Plus(d), j.block)
  {
    PlusIsPermutation(d, j.block);
    WithIsAlike(j, Plus(d), size);
  }

  /** Addresses and layout do not depend on the block function. */
  lemma WithAddresses(j: Job, f: seq<byte> -> seq<byte>, k: nat)
    ensures OutAt(With(j, f), k) == OutAt(j, k) && XorAt(With(j, f), k) == XorAt(j, k) && Top(With(j, f)) == Top(j)
    ensures With(j, f).input == j.input && With(j, f).flags == j.flags && With(j, f).block == j.block
    ensures With(j, f).hasXor == j.hasXor
    ensures forall n, a :: Written(With(j, f), k, n, a) == Written(j, k, n, a)
    ensures forall n :: CounterClear(With(j, f), n) == CounterClear(j, n)
  {}

  /** A counter block under the output: one of two additions misses a value or the counter, on any memory. */
  lemma CounterUnderOutput(j: Job, m: seq<byte>) returns (d: nat)
    requires Ok(j, |m|) && !j.flags.stationary && !CounterClear(j, j.Count())
    ensures 0 < d < 256 && Ok(With(j, Plus(d)), |m|) && !Meets(With(j, Plus(d)), m)
  {
    hide *;
    PlusFits(j, |m|, 1);
    PlusFits(j, |m|, 2);
    var j1, j2 := With(j, Plus(1)), With(j, Plus(2));
    d := 1;
    if Meets(j1, m) {
      d := 2;
      if Meets(j2, m) {
        var k, a := SharedOctet(j, |m|);
        WithAddresses(j, Plus(1), k);
        WithAddresses(j, Plus(2), k);
        FinalOctet(j1, m, k, a);
        FinalOctet(j2, m, k, a);
        FinalCounter(j1, m, a);
        FinalCounter(j2, m, a);
        ValuesDiffer(j, m, k, a - OutAt(j, k));
        assert false;
      }
    }
  }

  /** Where the mask of step k was written by an earlier block. */
  lemma MaskWrittenAt(j: Job, size: nat) returns (k: nat, t: nat, a: nat)
    requires Ok(j, size) && j.flags.counter && !j.flags.stationary && j.Count() >= 2 && j.hasXor
    requires !Ahead(j.flags.reverse, j.output, j.xor, Span(j.block, j.Count()))
    ensures k < j.Count() && t < j.block && a == XorAt(j, k) + t && Written(j, 0, k, a)
  {
    var d := j.output - j.xor;
    k, t := ReachedSomewhere(j.block, j.Count(), d);
    BlockFits(j, size, k);
    a := XorAt(j, k) + t;
  }

  lemma MaskInMemory(j: Job, m: seq<byte>, k: nat, t: nat, a: nat)
    requires Ok(j, |m|) && k < j.Count() && t < j.block && j.hasXor && a == XorAt(j, k) + t
    ensures a < |m| && MaskOctet(j, m, k, t) == m[a]
  {
    BlockFits(j, |m|, k);
  }

  lemma CounterInOctet(j: Job, m: seq<byte>, k: nat, t: nat)
    requires Ok(j, |m|) && !j.flags.stationary && j.flags.counter && CounterClear(j, j.Count()) && k < j.Count() && t < j.block
    ensures InOctet(j, After(j, m, k), k, t) == ValueIn(j, m, k, t)
  {
    BlockFits(j, |m|, k);
    CounterRuns(j, m, k);
    CounterStays(j, k);
    SliceAt(After(j, m, k), j.input, j.block, j.input + t);
    hide After, Bump, Slice, Ok, CounterClear;
  }

  /** If the call meets its values, every step finds the mask of the memory before the call. */
  lemma MaskAsBefore(j: Job, d: nat, m: seq<byte>, k: nat, t: nat)
    requires Ok(j, |m|) && j.f == Plus(d) && !j.flags.stationary && j.flags.counter && CounterClear(j, j.Count())
    requires Meets(j, m) && j.hasXor && k < j.Count() && t < j.block
    ensures j.input + j.block <= |m| && 0 < j.block
    ensures MaskOctet(j, Masking(j, After(j, m, k)), k, t) == MaskOctet(j, m, k, t)
  {
    BlockFits(j, |m|, k);
    hide *;
    var s := After(j, m, k);
    StepMakesValue(j, m, k, k + 1, t, OutAt(j, k) + t);
    StepOctet(j, d, s, k, t);
    ValueOctet(j, d, m, k, t);
    CounterInOctet(j, m, k, t);
    MadeInMask(j, d, ValueIn(j, m, k, t), MaskOctet(j, Masking(j, s), k, t), MaskOctet(j, m, k, t));
  }

  /** A written mask octet is the octet of the value that was written. */
  lemma WrittenMask(j: Job, m: seq<byte>, k: nat, t: nat, i: nat, a: nat)
    requires Ok(j, |m|) && !j.flags.stationary && j.flags.counter && CounterClear(j, j.Count()) && Meets(j, m) && j.hasXor
    requires i < k < j.Count() && t < j.block && a == XorAt(j, k) + t && OutAt(j, i) <= a < OutAt(j, i) + j.block
    ensures j.input + j.block <= |m| && 0 < j.block && |Value(j, m, 0, i)| == j.block
    ensures MaskOctet(j, Masking(j, After(j, m, k)), k, t) == Value(j, m, 0, i)[a - OutAt(j, i)]
  {
    BlockFits(j, |m|, k);
    MaskInMemory(j, Masking(j, After(j, m, k)), k, t, a);
    hide *;
    ClearOfCounter(j, |m|, i, a);
    MaskingElsewhere(j, After(j, m, k), a);
    StaysAsWritten(j, m, i, k, j.Count(), a);
    FinalOctet(j, m, i, a);
  }

  lemma MaskingElsewhere(j: Job, s: seq<byte>, a: nat)
    requires Ok(j, |s|) && a < |s| && !InCounter(j, a) && (j.flags.counter ==> 0 < j.block && j.input + j.block <= |s|)
    ensures Masking(j, s)[a] == s[a]
  {
    CountedElsewhere(j, s, 1, a);
  }

  /** A mask overwritten before it was read: one of two additions misses a value, on any memory. */
  lemma CounterMaskOverwritten(j: Job, m: seq<byte>) returns (d: nat)
    requires Ok(j, |m|) && j.flags.counter && !j.flags.stationary && j.Count() >= 2 && CounterClear(j, j.Count())
    requires j.hasXor && !Ahead(j.flags.reverse, j.output, j.xor, Span(j.block, j.Count()))
    ensures 0 < d < 256 && Ok(With(j, Plus(d)), |m|) && !Meets(With(j, Plus(d)), m)
  {
    OkBlock(j, |m|);
    hide *;
    PlusFits(j, |m|, 1);
    PlusFits(j, |m|, 2);
    var j1, j2 := With(j, Plus(1)), With(j, Plus(2));
    d := 1;
    if Meets(j1, m) {
      d := 2;
      if Meets(j2, m) {
        var k, t, a := MaskWrittenAt(j, |m|);
        var i := WrittenBlock(j, 0, k, a);
        MaskClash(j, j1, j2, m, k, t, i, a);
        assert false;
      }
    }
  }

  lemma MaskClash(j: Job, j1: Job, j2: Job, m: seq<byte>, k: nat, t: nat, i: nat, a: nat)
    requires Ok(j, |m|) && j1 == With(j, Plus(1)) && j2 == With(j, Plus(2)) && Ok(j1, |m|) && Ok(j2, |m|)
    requires j.flags.counter && !j.flags.stationary && CounterClear(j, j.Count()) && j.hasXor
    requires i < k < j.Count() && t < j.block
    requires a == XorAt(j, k) + t && OutAt(j, i) <= a < OutAt(j, i) + j.block
    ensures !(Meets(j1, m) && Meets(j2, m))
  {
    hide *;
    if Meets(j1, m) && Meets(j2, m) {
      MaskIsValue(j, j1, 1, m, k, t, i, a);
      MaskIsValue(j, j2, 2, m, k, t, i, a);
      ValuesDiffer(j, m, i, a - OutAt(j, i));
    }
  }

  lemma MaskIsValue(j: Job, jd: Job, d: nat, m: seq<byte>, k: nat, t: nat, i: nat, a: nat)
    requires Ok(j, |m|) && 0 < d < 256 && jd == With(j, Plus(d)) && Ok(jd, |m|) && Meets(jd, m)
    requires j.flags.counter && !j.flags.stationary && CounterClear(j, j.Count()) && j.hasXor
    requires i < k < j.Count() && t < j.block
    requires a == XorAt(j, k) + t && OutAt(j, i) <= a < OutAt(j, i) + j.block
    ensures a < |m| && i < jd.Count() && |Value(jd, m, 0, i)| == j.block
    ensures Value(jd, m, 0, i)[a - OutAt(j, i)] == m[a]
  {
    hide *;
    PlusFits(j, |m|, d);
    WithAddresses(j, Plus(d), k);
    WithAddresses(j, Plus(d), i);
    WrittenMask(jd, m, k, t, i, a);
    MaskAsBefore(jd, d, m, k, t);
    MaskInMemory(jd, m, k, t, a);
  }

  lemma NotRound(j: Job) returns (k: nat)
    requires !CountsRound(j)
    ensures k < j.Count() && XorAt(j, k) <= Top(j) < XorAt(j, k) + j.block && Shift(j, k) % 256 != 0
  {
    k :| k < j.Count() && XorAt(j, k) <= Top(j) < XorAt(j, k) + j.block && Shift(j, k) % 256 != 0;
  }

  /** A mask with the counting octet in it: adding one misses a value, on any memory. */
  lemma CounterInMask(j: Job, m: seq<byte>)
    requires Ok(j, |m|) && j.flags.counter && !j.flags.stationary && CounterClear(j, j.Count()) && j.hasXor
    requires !CountsRound(j)
    ensures Ok(With(j, Plus(1)), |m|) && !Meets(With(j, Plus(1)), m)
  {
    hide *;
    PlusFits(j, |m|, 1);
    var k := NotRound(j);
    var jp := With(j, Plus(1));
    WithAddresses(j, Plus(1), k);
    ShiftIsAlike(j, Plus(1), k);
    BlockFits(jp, |m|, k);
    if Meets(jp, m) {
      CountedMask(jp, m, k, Top(jp) - XorAt(jp, k), Top(jp), Shift(jp, k));
    }
  }

  lemma ShiftIsAlike(j: Job, f: seq<byte> -> seq<byte>, k: nat)
    ensures Shift(With(j, f), k) == Shift(j, k)
  {}

  lemma MaskingTop(j: Job, m: seq<byte>, s: seq<byte>, k: nat, top: nat)
    requires Ok(j, |m|) && j.flags.counter && 0 < j.block && j.input + j.block <= |m| == |s| && top == Top(j)
    requires Slice(s, j.input, j.block) == Bump(Slice(m, j.input, j.block), k)
    ensures Masking(j, s)[top] == Octet(m[top] as int + Shift(j, k))
  {
    TopOctets(j, m, s, k);
    hide Octet, Counted, Bump, Slice;
  }

  lemma CountedMask(j: Job, m: seq<byte>, k: nat, t: nat, top: nat, shift: nat)
    requires Ok(j, |m|) && j.f == Plus(1) && j.flags.counter && !j.flags.stationary && CounterClear(j, j.Count()) && j.hasXor
    requires k < j.Count() && t < j.block && top == XorAt(j, k) + t && top == Top(j) && shift == Shift(j, k)
    requires Meets(j, m)
    ensures shift % 256 == 0
  {
    hide *;
    var s := After(j, m, k);
    MaskAsBefore(j, 1, m, k, t);
    CounterRuns(j, m, k);
    MaskingTop(j, m, s, k, top);
    MaskInMemory(j, m, k, t, top);
    MaskInMemory(j, Masking(j, s), k, t, top);
    NoShiftUnlessRound(m[top], shift);
  }

  lemma NoShiftUnlessRound(x: byte, n: nat)
    ensures Octet(x as int + n) == x ==> n % 256 == 0
  {}

  lemma CounterUnsafeShows(j: Job, size: nat) returns (d: nat)
    requires Ok(j, size) && j.flags.counter && !j.flags.stationary && j.Count() >= 2 && !CounterKeeps(j)
    ensures 0 < d < 256 && Ok(With(j, Plus(d)), size) && !Meets(With(j, Plus(d)), Repeat(0, size))
  {
    hide Ok, Meets, CounterClear, CountsRound, Ahead, With, Plus, Job.Count, OutAt, XorAt;
    if !CounterClear(j, j.Count()) {
      d := CounterUnderOutput(j, Repeat(0, size));
    } else if !Ahead(j.flags.reverse, j.output, j.xor, Span(j.block, j.Count())) {
      d := CounterMaskOverwritten(j, Repeat(0, size));
    } else {
      d := 1;
      CounterInMask(j, Repeat(0, size));
    }
  }

  // ----- when single blocks keep their values

  /** The layouts in which every block gets the value computed from the memory before the call. */
  ghost predicate KeepsValues(j: Job) {
    if j.flags.counter then CounterKeeps(j) else Safe(j) || SelfMasked(j)
  }

  lemma KeepsIsAlike(j: Job, f: seq<byte> -> seq<byte>)
    ensures KeepsValues(With(j, f)) == KeepsValues(j)
  {
    assert forall k :: XorAt(With(j, f), k) == XorAt(j, k) && Shift(With(j, f), k) == Shift(j, k);
    hide XorAt, Shift;
    assert CountsRound(With(j, f)) == CountsRound(j);
    hide CountsRound;
  }

  lemma KeepsMeets(j: Job, m: seq<byte>)
    requires Ok(j, |m|) && !j.flags.stationary && KeepsValues(j)
    ensures Meets(j, m)
  {
    hide Outcome, Ok, SerialRun, CounterKeeps, SelfMasked, CounterClear, SafeWithin, Job.Count;
    OkBlock(j, |m|);
    if j.flags.counter {
      CounterMeets(j, m);
    } else if Safe(j) {
      SerialOutcome(j, m, 0, j.Count());
    } else {
      SelfMaskedOutcome(j, m, 0, j.Count());
    }
  }

  /** Otherwise a fixed permutation misses one on zeros. */
  lemma KeepsNotShows(j: Job, size: nat) returns (d: nat)
    requires Ok(j, size) && !j.flags.stationary && j.Count() >= 2 && !KeepsValues(j)
    ensures 0 < d < 256 && Ok(With(j, Plus(d)), size) && !Meets(With(j, Plus(d)), Repeat(0, size))
  {
    hide Ok, Meets, CounterKeeps, Safe, SelfMasked, With, Plus, Job.Count;
    if j.flags.counter {
      d := CounterUnsafeShows(j, size);
    } else {
      d := 1;
      UnsafeShows(j, size);
    }
  }

  /**
   Single blocks give every block the value computed from the memory before the call, for all
   block functions and memories, exactly in these layouts; and permutations alone show it.
   */
  lemma ValuesExactlyWhen(j: Job, size: nat)
    requires Ok(j, size) && !j.flags.stationary && j.Count() >= 2
    ensures (forall f, m :: Fits(j, f, size, m) ==> Ok(With(j, f), |m|) && Meets(With(j, f), m)) <==> KeepsValues(j)
    ensures (forall f, m :: Fits(j, f, size, m) && BlockPermutation(f, j.block) ==> Ok(With(j, f), |m|) && Meets(With(j, f), m))
       <==> KeepsValues(j)
  {
    if KeepsValues(j) {
      forall f, m | Fits(j, f, size, m) ensures Ok(With(j, f), |m|) && Meets(With(j, f), m) {
        WithIsAlike(j, f, size);
        KeepsIsAlike(j, f);
        hide Ok, KeepsValues, Meets;
        KeepsMeets(With(j, f), m);
      }
    } else {
      hide Ok, KeepsValues, Meets, Plus, BlockPermutation;
      var d := KeepsNotShows(j, size);
      PlusIsPermutation(d, j.block);
      assert Fits(j, Plus(d), size, Repeat(0, size));
    }
  }

  // ----- batches

  /** A batch that covers the whole call meets its values although areas overlap: all loads precede all stores. */
  lemma BatchMeets(j: Job, m: seq<byte>, w: nat)
    requires Batchable(j, |m|, 0, w) && Held(j, w) == j.Count() && CounterClear(j, j.Count()) && MaskMissesTop(j)
    ensures Outcome(j, m, Stored(j, m, 0, w, w), 0, j.Count())
  {
    hide *;
    HeldFits(j, |m|, 0, w, w);
    StoredDone(j, m, 0, w, w, Held(j, w));
    OutcomeIsDone(j, m, Stored(j, m, 0, w, w), 0, j.Count());
  }

  lemma OutcomeTouches(j: Job, m: seq<byte>, s: seq<byte>, k: nat, n: nat, a: nat)
    requires Ok(j, |m|) && !j.flags.counter && k + n <= j.Count() && Outcome(j, m, s, k, n)
    requires a < |m| && !Written(j, k, n, a)
    ensures |s| == |m| && s[a] == m[a]
  {}

  lemma MeetsIs(j: Job, m: seq<byte>)
    requires Ok(j, |m|)
    ensures Meets(j, m) <==> Outcome(j, m, SerialRun(j, m, 0, j.Count()), 0, j.Count())
  {}

  /** Where single blocks miss a value, a batch over the whole call differs from them. */
  lemma PartingOctet(j: Job, m: seq<byte>, w: nat) returns (a: nat)
    requires Batchable(j, |m|, 0, w) && Ok(j, |m|) && Moving(j) && Held(j, w) == j.Count() && !Meets(j, m)
    ensures a < |m| && Written(j, 0, j.Count(), a)
    ensures Stored(j, m, 0, w, w)[a] != SerialRun(j, m, 0, j.Count())[a]
  {
    MovingParts(j);
    MovingMisses(j);
    hide *;
    var s, r := Stored(j, m, 0, w, w), SerialRun(j, m, 0, j.Count());
    BatchMeets(j, m, w);
    MeetsIs(j, m);
    a := Difference(s, r);
    if !Written(j, 0, j.Count(), a) {
      OutcomeTouches(j, m, s, 0, j.Count(), a);
      RunTouches(j, m, 0, j.Count(), a);
      assert false;
    }
  }

  lemma MovingMisses(j: Job)
    requires Moving(j)
    ensures MaskMissesTop(j) && forall n :: CounterClear(j, n)
  {}

  lemma Difference(s: seq<byte>, r: seq<byte>) returns (a: nat)
    requires |s| == |r| && s != r
    ensures a < |s| && s[a] != r[a]
  {
    a :| a < |s| && s[a] != r[a];
  }

  lemma WindowWritten(j: Job, size: nat, n: nat, a: nat)
    requires Ok(j, size) && !j.flags.stationary && n <= j.Count()
    ensures Span(j.block, 0 + n) <= j.length
    ensures Written(Window(j, 0, n), 0, n, a) <==> Written(j, 0, n, a)
  {}

  lemma FirstBatch(j: Job, size: nat, w: nat)
    requires Ok(j, size) && Moving(j) && 16 * w <= j.length
    ensures Batchable(j, size, 0, w) && Held(j, w) <= j.Count() && Span(j.block, Held(j, w)) == 16 * w
    ensures w >= 2 ==> Held(j, w) >= 2
  {}

  /** The same for a batch at the start of a longer call. */
  lemma BatchDiffers(j: Job, m: seq<byte>, w: nat) returns (a: nat)
    requires Ok(j, |m|) && Moving(j) && 16 * w <= j.length
    requires Span(j.block, 0 + Held(j, w)) <= j.length && Ok(Window(j, 0, Held(j, w)), |m|)
    requires !Meets(Window(j, 0, Held(j, w)), m)
    ensures Batchable(j, |m|, 0, w) && Held(j, w) <= j.Count() && a < |m| && Written(j, 0, Held(j, w), a)
    ensures Stored(j, m, 0, w, w)[a] != SerialRun(j, m, 0, Held(j, w))[a]
  {
    MovingParts(j);
    hide *;
    FirstBatch(j, |m|, w);
    var n := Held(j, w);
    var v := Window(j, 0, n);
    WindowFits(j, |m|, 0, n);
    WindowBatchable(j, |m|, 0, w);
    WindowIsAlike(j, w);
    a := PartingOctet(v, m, w);
    WindowWritten(j, |m|, n, a);
    WindowStored(j, m, 0, w, w);
    WindowRun(j, m, 0, n, n);
  }

  lemma WindowIsAlike(j: Job, w: nat)
    requires Span(j.block, 0 + Held(j, w)) <= j.length && Moving(j)
    ensures var v := Window(j, 0, Held(j, w)); Held(v, w) == Held(j, w) && Moving(v) && v.block == j.block
  {}

  lemma WindowUnsafe(j: Job, size: nat, w: nat)
    requires Ok(j, size) && Moving(j) && 16 * w <= j.length && !SafeWithin(j, 16 * w) && !SelfMasked(j)
    ensures Span(j.block, 0 + Held(j, w)) <= j.length
    ensures var v := Window(j, 0, Held(j, w)); Ok(v, size) && Moving(v) && !Safe(v) && !SelfMasked(v) && v.Count() == Held(j, w)
  {
    var n := Held(j, w);
    WindowFits(j, size, 0, n);
    WindowHazard(j, size, 0, n);
    SafeIsAhead(Window(j, 0, n));
    assert Span(j.block, n) == 16 * w;
    hide SafeWithin, Safe, Ok;
  }

  lemma WindowOfWith(j: Job, f: seq<byte> -> seq<byte>, size: nat, n: nat)
    requires Ok(j, size) && n <= j.Count() && Span(j.block, 0 + n) <= j.length
    ensures Span(With(j, f).block, 0 + n) <= With(j, f).length
    ensures With(Window(j, 0, n), f) == Window(With(j, f), 0, n)
    ensures forall w :: Held(With(j, f), w) == Held(j, w)
  {}

  /** An unsafe first batch differs from single blocks when one is added to zeros. */
  lemma UnsafeBatchShows(j: Job, size: nat, w: nat) returns (a: nat)
    requires Ok(j, size) && Moving(j) && w >= 2 && 16 * w <= j.length && !SafeWithin(j, 16 * w) && !SelfMasked(j)
    ensures Ok(With(j, Plus(1)), size) && Batchable(With(j, Plus(1)), size, 0, w)
    ensures a < size && Held(j, w) <= j.Count() && Written(With(j, Plus(1)), 0, Held(j, w), a)
    ensures Held(With(j, Plus(1)), w) == Held(j, w)
    ensures Stored(With(j, Plus(1)), Repeat(0, size), 0, w, w)[a]
         != SerialRun(With(j, Plus(1)), Repeat(0, size), 0, Held(j, w))[a]
  {
    MovingParts(j);
    hide *;
    FirstBatch(j, size, w);
    WindowUnsafe(j, size, w);
    UnsafeShows(Window(j, 0, Held(j, w)), size);
    PlusIsPermutation(1, j.block);
    WithIsAlike(j, Plus(1), size);
    WindowOfWith(j, Plus(1), size, Held(j, w));
    a := BatchDiffers(With(j, Plus(1)), Repeat(0, size), w);
  }

  // ----- whole calls

  lemma StoredTouches(j: Job, m: seq<byte>, k: nat, w: nat, a: nat)
    requires Batchable(j, |m|, k, w) && Ok(j, |m|) && Moving(j) && a < |m| && k + Held(j, w) <= j.Count()
    requires !Written(j, k, Held(j, w), a)
    ensures Stored(j, m, k, w, w)[a] == m[a]
  {
    MovingParts(j);
    MovingMisses(j);
    hide *;
    StoredDone(j, m, k, w, w, Held(j, w));
    OutcomeIsDone(j, m, Stored(j, m, k, w, w), k, Held(j, w));
    OutcomeTouches(j, m, Stored(j, m, k, w, w), k, Held(j, w), a);
  }

  lemma WrittenSplits(j: Job, size: nat, k: nat, n: nat, rest: nat, a: nat)
    requires Ok(j, size) && k + n + rest <= j.Count() && !Written(j, k, n + rest, a)
    ensures !Written(j, k, n, a) && !Written(j, k + n, rest, a)
  {}

  /** Batches touch nothing but the blocks still to be done. */
  lemma {:induction false} BatchesTouch(j: Job, m: seq<byte>, k: nat, w: nat, a: nat)
    requires Ok(j, |m|) && Moving(j) && !j.flags.stationary && k <= j.Count() && w > 0
    requires a < |m| && !Written(j, k, j.Count() - k, a)
    ensures Batches(j, m, k, w).0[a] == m[a] && !Written(j, Batches(j, m, k, w).1, j.Count() - Batches(j, m, k, w).1, a)
    decreases j.Count() - k
  {
    hide *;
    BatchesStep(j, m, k, w);
    if j.length - Span(j.block, k) >= 16 * w {
      HeldFits(j, |m|, k, w, w);
      var n := Held(j, w);
      WrittenSplits(j, |m|, k, n, j.Count() - k - n, a);
      StoredTouches(j, m, k, w, a);
      BatchesTouch(j, Stored(j, m, k, w, w), k + n, w, a);
    }
  }

  lemma {:induction false} BatchedTouches(j: Job, m: seq<byte>, k: nat, sizes: seq<nat>, a: nat)
    requires Ok(j, |m|) && Moving(j) && !j.flags.stationary && k <= j.Count() && Positive(sizes)
    requires a < |m| && !Written(j, k, j.Count() - k, a)
    ensures Batched(j, m, k, sizes)[a] == m[a]
    decreases |sizes|
  {
    MovingParts(j);
    assert sizes != [] ==> sizes[0] > 0;
    hide *;
    BatchedStep(j, m, k, sizes);
    if sizes == [] {
      RunTouches(j, m, k, j.Count() - k, a);
    } else {
      BatchesTouch(j, m, k, sizes[0], a);
      BatchedTouches(j, Batches(j, m, k, sizes[0]).0, Batches(j, m, k, sizes[0]).1, sizes[1..], a);
    }
  }

  /** Batch sizes as the templates use them: two words or more, the largest first. */
  predicate Descending(sizes: seq<nat>) {
    && (forall i :: 0 <= i < |sizes| ==> sizes[i] >= 2)
    && forall i, k :: 0 <= i < k < |sizes| ==> sizes[i] >= sizes[k]
  }

  lemma DescendingTail(sizes: seq<nat>)
    requires Descending(sizes)
    ensures Positive(sizes)
    ensures sizes != [] ==> sizes[0] >= 2 && Descending(sizes[1..])
  {}

  /** The first batch that runs is the largest, and the hardest to keep safe. */
  lemma LargestDecides(j: Job, sizes: seq<nat>)
    requires Descending(sizes) && !SafeFor(j, sizes)
    ensures sizes != [] && sizes[0] >= 2
    ensures 16 * sizes[0] > j.length ==> !SafeFor(j, sizes[1..])
    ensures 16 * sizes[0] <= j.length ==> !SafeWithin(j, 16 * sizes[0])
  {
    var w: nat :| w in sizes && 16 * w <= j.length && !SafeWithin(j, 16 * w);
    var i :| 0 <= i < |sizes| && sizes[i] == w;
    if i > 0 {
      assert sizes[1..][i - 1] == w;
      assert sizes[0] >= w;
    }
  }

  lemma NoBatchYet(j: Job, size: nat, w: nat)
    requires Ok(j, size)
    ensures Span(j.block, 0) == 0 && 0 <= j.Count()
  {}

  /** An octet of the first batch is in the end as that batch stored it. */
  lemma FirstBatchStays(j: Job, m: seq<byte>, k: nat, sizes: seq<nat>, w: nat, from: nat, a: nat)
    requires Ok(j, |m|) && Moving(j) && !j.flags.stationary && Positive(sizes) && sizes != [] && sizes[0] == w && w > 0
    requires Batchable(j, |m|, k, w) && from == k + Held(j, w) && from <= j.Count() && j.length - Span(j.block, k) >= 16 * w
    requires a < |m| && !Written(j, from, j.Count() - from, a)
    ensures k <= j.Count() && Batched(j, m, k, sizes)[a] == Stored(j, m, k, w, w)[a]
  {
    hide *;
    var m1 := Stored(j, m, k, w, w);
    BatchedStep(j, m, k, sizes);
    BatchesStep(j, m, k, w);
    BatchesTouch(j, m1, from, w, a);
    BatchedTouches(j, Batches(j, m1, from, w).0, Batches(j, m1, from, w).1, sizes[1..], a);
  }

  lemma WrittenOnce(j: Job, size: nat, k: nat, n: nat, from: nat, rest: nat, a: nat)
    requires Ok(j, size) && from == k + n && from + rest <= j.Count() && Written(j, k, n, a)
    ensures !Written(j, from, rest, a)
  {}

  lemma NoCounter(j: Job, a: int)
    requires Moving(j)
    ensures !InCounter(j, a) && !j.flags.stationary
  {}

  /** After the first batch differed, nothing brings the results together again. */
  lemma StillDiffers(j: Job, m: seq<byte>, k: nat, sizes: seq<nat>, w: nat, n: nat, from: nat, whole: nat, a: nat)
    requires Ok(j, |m|) && Moving(j) && !j.flags.stationary && sizes != [] && Positive(sizes) && sizes[0] == w && w > 0
    requires Batchable(j, |m|, k, w) && n == Held(j, w) && j.length - Span(j.block, k) >= 16 * w
    requires from == k + n <= j.Count() && k + whole == j.Count()
    requires a < |m| && Written(j, k, n, a)
    ensures Stored(j, m, k, w, w)[a] != SerialRun(j, m, k, n)[a] ==> Batched(j, m, k, sizes) != SerialRun(j, m, k, whole)
  {
    hide *;
    NoCounter(j, a);
    WrittenOnce(j, |m|, k, n, from, whole - n, a);
    FirstBatchStays(j, m, k, sizes, w, from, a);
    RestKeeps(j, m, k, n, whole, from, a);
  }

  lemma {:induction false} UnsafeCall(j: Job, jp: Job, m: seq<byte>, size: nat, sizes: seq<nat>)
    requires Ok(j, size) && Moving(j) && Descending(sizes) && !SafeFor(j, sizes) && !SelfMasked(j)
    requires jp == With(j, Plus(1)) && m == Repeat(0, size) && |m| == size && Ok(jp, size) && Moving(jp)
    ensures Positive(sizes) && !jp.flags.stationary && 0 <= jp.Count()
    ensures Batched(jp, m, 0, sizes) != SerialRun(jp, m, 0, jp.Count())
    decreases |sizes|
  {
    hide *;
    DescendingTail(sizes);
    LargestDecides(j, sizes);
    MovingParts(jp);
    NoBatchYet(jp, size, 0);
    var w := sizes[0];
    WithLength(j, Plus(1));
    if 16 * w > j.length {
      UnsafeCall(j, jp, m, size, sizes[1..]);
      SkipsBatch(jp, m, sizes);
    } else {
      FirstDiffers(j, jp, m, size, sizes, w);
    }
  }

  lemma FirstDiffers(j: Job, jp: Job, m: seq<byte>, size: nat, sizes: seq<nat>, w: nat)
    requires Ok(j, size) && Moving(j) && !SelfMasked(j) && sizes != [] && Positive(sizes) && w == sizes[0] && w >= 2
    requires 16 * w <= j.length && !SafeWithin(j, 16 * w)
    requires jp == With(j, Plus(1)) && m == Repeat(0, size) && |m| == size && Ok(jp, size) && Moving(jp)
    ensures !jp.flags.stationary && 0 <= jp.Count()
    ensures Batched(jp, m, 0, sizes) != SerialRun(jp, m, 0, jp.Count())
  {
    hide *;
    MovingParts(jp);
    NoBatchYet(jp, size, 0);
    WithLength(j, Plus(1));
    FirstBatch(jp, size, w);
    var a := UnsafeBatchShows(j, size, w);
    var n := Held(jp, w);
    StillDiffers(jp, m, 0, sizes, w, n, n, jp.Count(), a);
  }

  lemma WithLength(j: Job, f: seq<byte> -> seq<byte>)
    ensures With(j, f).length == j.length && With(j, f).block == j.block && With(j, f).Count() == j.Count()
  {}

  /** In a layout that is not safe for the batch sizes the calls differ when one is added to zeros. */
  lemma UnsafeCallShows(j: Job, size: nat, sizes: seq<nat>)
    requires Ok(j, size) && Moving(j) && Descending(sizes) && !SafeFor(j, sizes) && !SelfMasked(j)
    ensures Ok(With(j, Plus(1)), size) && Positive(sizes) && !With(j, Plus(1)).flags.stationary
    ensures 0 <= j.Count() == With(j, Plus(1)).Count()
    ensures Batched(With(j, Plus(1)), Repeat(0, size), 0, sizes) != SerialRun(With(j, Plus(1)), Repeat(0, size), 0, j.Count())
  {
    PlusIsPermutation(1, j.block);
    WithIsAlike(j, Plus(1), size);
    hide *;
    UnsafeCall(j, With(j, Plus(1)), Repeat(0, size), size, sizes);
  }

  lemma SkipsBatch(j: Job, m: seq<byte>, sizes: seq<nat>)
    requires Ok(j, |m|) && !j.flags.stationary && sizes != [] && Positive(sizes) && Positive(sizes[1..])
    ensures 0 <= j.Count()
    ensures 16 * sizes[0] > j.length ==> Batched(j, m, 0, sizes) == Batched(j, m, 0, sizes[1..])
  {
    assert sizes[0] > 0;
    hide *;
    NoBatchYet(j, |m|, 0);
    BatchedStep(j, m, 0, sizes);
    BatchesStep(j, m, 0, sizes[0]);
  }

  ghost predicate SameAsSerial(j: Job, m: seq<byte>, sizes: seq<nat>)
    requires Ok(j, |m|) && Positive(sizes) && (j.flags.parallel ==> !j.flags.stationary)
  {
    Processed(j, m, sizes) == SerialRun(j, m, 0, j.Count())
  }

  /**
   For pointers that move: the parallel call leaves what single blocks leave, for all block
   functions and memories, exactly in layouts that are safe for the batches it is long enough
   for or in which the input masks itself; and permutations alone show it.
   */
  lemma SerialExactlyWhen(j: Job, size: nat, sizes: seq<nat>)
    requires Ok(j, size) && Moving(j) && j.flags.parallel && Descending(sizes)
    ensures Positive(sizes)
    ensures (forall f, m :: Fits(j, f, size, m) ==> Ok(With(j, f), |m|) && SameAsSerial(With(j, f), m, sizes))
       <==> SafeFor(j, sizes) || SelfMasked(j)
    ensures (forall f, m :: Fits(j, f, size, m) && BlockPermutation(f, j.block) ==>
                Ok(With(j, f), |m|) && SameAsSerial(With(j, f), m, sizes))
       <==> SafeFor(j, sizes) || SelfMasked(j)
  {
    DescendingTail(sizes);
    if SafeFor(j, sizes) || SelfMasked(j) {
      forall f, m | Fits(j, f, size, m) ensures Ok(With(j, f), |m|) && SameAsSerial(With(j, f), m, sizes) {
        WithIsAlike(j, f, size);
        if SafeFor(j, sizes) { SafeForWith(j, f, sizes); }
        hide Ok, SafeFor, SelfMasked, Processed, SerialRun, Positive;
        ProcessedIsSerial(With(j, f), m, sizes);
      }
    } else {
      PlusIsPermutation(1, j.block);
      hide Ok, SafeFor, SelfMasked, Batched, SerialRun, Positive, Descending, Plus, BlockPermutation;
      UnsafeCallShows(j, size, sizes);
      assert !SameAsSerial(With(j, Plus(1)), Repeat(0, size), sizes);
      assert Fits(j, Plus(1), size, Repeat(0, size));
    }
  }

  lemma SafeForWith(j: Job, f: seq<byte> -> seq<byte>, sizes: seq<nat>)
    requires SafeFor(j, sizes)
    ensures SafeFor(With(j, f), sizes)
  {
    forall w | w in sizes && 16 * w <= j.length ensures SafeWithin(With(j, f), 16 * w) {
      assert SafeWithin(j, 16 * w);
    }
  }
}
