/**
 Batches of vector words: all words of a batch are loaded, masked and transformed before the
 first one is stored. A word of 16 octets holds one block of 16 or two blocks of 8.
 */
module AdvBatches {
  import opened Bytes
  import opened XorBlocks
  import Lanes
  import opened AdvBlocks

  /** w words hold this many blocks */
  function Held(j: Job, w: nat): nat {
    if j.block == 8 then 2 * w else w
  }

  /** Where word t of a batch after k blocks lies in the area that starts at `base`. */
  function WordAt(j: Job, base: int, k: nat, t: nat): int {
    base + if j.flags.reverse then j.length - Span(j.block, k) - 16 * (t + 1) else Span(j.block, k) + 16 * t
  }

  /** The batch can be processed: it lies within the call, and its pointers move. */
  ghost predicate Batchable(j: Job, size: nat, k: nat, w: nat) {
    Ok(j, size) && !j.flags.stationary && k + Held(j, w) <= j.Count()
  }

  lemma WordFits(j: Job, size: nat, k: nat, w: nat, t: nat)
    requires Batchable(j, size, k, w) && t < w
    ensures !j.Fixed() ==> 0 <= WordAt(j, j.input, k, t) && WordAt(j, j.input, k, t) + 16 <= size
    ensures j.hasXor ==> 0 <= WordAt(j, j.xor, k, t) && WordAt(j, j.xor, k, t) + 16 <= size
    ensures 0 <= WordAt(j, j.output, k, t) && WordAt(j, j.output, k, t) + 16 <= size
    ensures j.flags.counter ==> j.input + j.block <= size
  {}

  // ----- one word

  /** The multi-block functions, which act block by block. */
  function Apply(j: Job, w: seq<byte>): seq<byte>
    requires |w| == 16
  {
    if j.block == 8 then j.f(w[..8]) + j.f(w[8..]) else j.f(w)
  }

  lemma ApplySize(j: Job, w: seq<byte>)
    requires WellFormed(j) && |w| == 16
    ensures |Apply(j, w)| == 16
  {}

  /** The counter's word t of a batch: consecutive counters side by side. */
  function CounterWord(j: Job, c: seq<byte>, t: nat): (w: seq<byte>)
    requires |c| == j.block && (j.block == 8 || j.block == 16)
    ensures |w| == 16
  {
    if j.block == 8 then Lanes.Bump(c, 2 * t) + Lanes.Bump(c, 2 * t + 1) else Lanes.Bump(c, t)
  }

  ghost function InWord(j: Job, m: seq<byte>, k: nat, w: nat, t: nat): (r: seq<byte>)
    requires Batchable(j, |m|, k, w) && t < w
    ensures |r| == 16
  {
    WordFits(j, |m|, k, w, t);
    if j.flags.counter then CounterWord(j, Slice(m, j.input, j.block), t) else Slice(m, WordAt(j, j.input, k, t), 16)
  }

  ghost function MaskWord(j: Job, m: seq<byte>, k: nat, w: nat, t: nat): (r: seq<byte>)
    requires Batchable(j, |m|, k, w) && t < w
    ensures j.hasXor ==> |r| == 16
  {
    WordFits(j, |m|, k, w, t);
    if j.hasXor then Slice(m, WordAt(j, j.xor, k, t), 16) else []
  }

  ghost function OutWord(j: Job, inw: seq<byte>, mask: seq<byte>): (r: seq<byte>)
    requires WellFormed(j) && |inw| == 16 && (j.hasXor ==> |mask| == 16)
    ensures |r| == 16
  {
    if !j.hasXor then Apply(j, inw)
    else if j.flags.xorInput then Apply(j, Xor(inw, mask))
    else Xor(Apply(j, inw), mask)
  }

  /** Word t of a batch of w words: the counter block is already stored when the masks are loaded. */
  ghost function BatchWord(j: Job, m: seq<byte>, k: nat, w: nat, t: nat): (r: seq<byte>)
    requires Batchable(j, |m|, k, w) && t < w
    ensures |r| == 16
  {
    OutWord(j, InWord(j, m, k, w, t), MaskWord(j, Counted(j, m, Held(j, w)), k, w, t))
  }

  /** The memory after the first n words of a batch have been stored. */
  ghost function Stored(j: Job, m: seq<byte>, k: nat, w: nat, n: nat): (m': seq<byte>)
    requires Batchable(j, |m|, k, w) && n <= w
    ensures |m'| == |m|
  {
    if n == 0 then Counted(j, m, Held(j, w)) else
      WordFits(j, |m|, k, w, n - 1);
      Splice(Stored(j, m, k, w, n - 1), WordAt(j, j.output, k, n - 1), BatchWord(j, m, k, w, n - 1))
  }

  // ----- a word is its blocks

  /** The blocks of word t, low half first. */
  function LowBlock(j: Job, k: nat, t: nat): nat {
    if j.block == 16 then k + t else if j.flags.reverse then k + 2 * t + 1 else k + 2 * t
  }

  function HighBlock(j: Job, k: nat, t: nat): nat {
    if j.block == 16 then k + t else if j.flags.reverse then k + 2 * t else k + 2 * t + 1
  }

  lemma WordHolds(j: Job, size: nat, k: nat, w: nat, t: nat)
    requires Batchable(j, size, k, w) && t < w
    ensures k <= LowBlock(j, k, t) < j.Count() && k <= HighBlock(j, k, t) < j.Count()
    ensures WordAt(j, j.output, k, t) == OutAt(j, LowBlock(j, k, t))
    ensures !j.Fixed() ==> WordAt(j, j.input, k, t) == InAt(j, LowBlock(j, k, t))
    ensures WordAt(j, j.xor, k, t) == XorAt(j, LowBlock(j, k, t))
    ensures j.block == 8 ==> WordAt(j, j.output, k, t) + 8 == OutAt(j, HighBlock(j, k, t))
    ensures j.block == 8 && !j.Fixed() ==> WordAt(j, j.input, k, t) + 8 == InAt(j, HighBlock(j, k, t))
    ensures j.block == 8 ==> WordAt(j, j.xor, k, t) + 8 == XorAt(j, HighBlock(j, k, t))
  {}

  lemma SliceHalves(m: seq<byte>, p: int)
    requires 0 <= p && p + 16 <= |m|
    ensures Slice(m, p, 16)[..8] == Slice(m, p, 8) && Slice(m, p, 16)[8..] == Slice(m, p + 8, 8)
  {}

  lemma XorHalves(a: seq<byte>, b: seq<byte>)
    requires |a| == |b| == 16
    ensures Xor(a, b)[..8] == Xor(a[..8], b[..8]) && Xor(a, b)[8..] == Xor(a[8..], b[8..])
  {}

  /** With two blocks in a word, each half is transformed on its own. */
  lemma OutWordHalves(j: Job, inw: seq<byte>, mask: seq<byte>)
    requires WellFormed(j) && j.block == 8 && |inw| == 16 && (j.hasXor ==> |mask| == 16)
    ensures var lo, hi := if j.hasXor then mask[..8] else [], if j.hasXor then mask[8..] else [];
      && OutWord(j, inw, mask)[..8] == Transform(j, inw[..8], lo)
      && OutWord(j, inw, mask)[8..] == Transform(j, inw[8..], hi)
  {
    if j.hasXor {
      XorHalves(inw, mask);
      XorHalves(Apply(j, inw), mask);
    }
  }

  /** The input of block i within a run that starts with block k. */
  ghost function InBlock(j: Job, m: seq<byte>, k: nat, i: nat): seq<byte>
    requires Ok(j, |m|) && k <= i < j.Count()
  {
    BlockFits(j, |m|, i);
    var inb := Slice(m, InAt(j, i), j.block);
    if j.flags.counter then Lanes.Bump(inb, i - k) else inb
  }

  lemma InWordIsBlocks(j: Job, m: seq<byte>, k: nat, w: nat, t: nat)
    requires Batchable(j, |m|, k, w) && t < w
    ensures k <= LowBlock(j, k, t) < j.Count() && k <= HighBlock(j, k, t) < j.Count()
    ensures InWord(j, m, k, w, t)[..j.block] == InBlock(j, m, k, LowBlock(j, k, t))
    ensures InWord(j, m, k, w, t)[16 - j.block..] == InBlock(j, m, k, HighBlock(j, k, t))
  {
    WordFits(j, |m|, k, w, t);
    WordHolds(j, |m|, k, w, t);
    if !j.flags.counter {
      SliceHalves(m, WordAt(j, j.input, k, t));
    }
  }

  lemma MaskWordIsBlocks(j: Job, m: seq<byte>, k: nat, w: nat, t: nat)
    requires Batchable(j, |m|, k, w) && t < w && j.hasXor
    ensures LowBlock(j, k, t) < j.Count() && HighBlock(j, k, t) < j.Count()
    ensures MaskWord(j, m, k, w, t)[..j.block] == Mask(j, m, LowBlock(j, k, t))
    ensures MaskWord(j, m, k, w, t)[16 - j.block..] == Mask(j, m, HighBlock(j, k, t))
  {
    WordFits(j, |m|, k, w, t);
    WordHolds(j, |m|, k, w, t);
    SliceHalves(m, WordAt(j, j.xor, k, t));
  }

  lemma MaskWordAfterCounting(j: Job, m: seq<byte>, n: nat, k: nat, w: nat, t: nat)
    requires Batchable(j, |m|, k, w) && MaskMissesTop(j) && t < w
    requires j.flags.counter ==> 0 < j.block && j.input + j.block <= |m|
    ensures MaskWord(j, Counted(j, m, n), k, w, t) == MaskWord(j, m, k, w, t)
  {
    if j.hasXor {
      hide Counted, MaskMissesTop, MaskWord, Mask, LowBlock, HighBlock;
      MaskWordIsBlocks(j, m, k, w, t);
      MaskWordIsBlocks(j, Counted(j, m, n), k, w, t);
      MaskAfterCounting(j, m, n, LowBlock(j, k, t));
      MaskAfterCounting(j, m, n, HighBlock(j, k, t));
      SameParts(MaskWord(j, m, k, w, t), MaskWord(j, Counted(j, m, n), k, w, t), j.block);
    }
  }

  lemma SameParts(a: seq<byte>, b: seq<byte>, n: nat)
    requires |a| == |b| == 16 && (n == 8 || n == 16) && a[..n] == b[..n] && a[16 - n..] == b[16 - n..]
    ensures a == b
  {
    assert a == a[..n] + a[n..] && b == b[..n] + b[n..];
  }

  lemma ValueIs(j: Job, m: seq<byte>, k: nat, i: nat)
    requires Ok(j, |m|) && k <= i < j.Count()
    ensures |InBlock(j, m, k, i)| == j.block
    ensures Value(j, m, k, i) == Transform(j, InBlock(j, m, k, i), Mask(j, m, i))
  {}

  /** The low and the high part of a word of a batch are the values of its blocks. */
  lemma WordIsValues(j: Job, m: seq<byte>, k: nat, w: nat, t: nat)
    requires Batchable(j, |m|, k, w) && MaskMissesTop(j) && t < w
    ensures k <= LowBlock(j, k, t) < j.Count() && k <= HighBlock(j, k, t) < j.Count()
    ensures BatchWord(j, m, k, w, t)[..j.block] == Value(j, m, k, LowBlock(j, k, t))
    ensures BatchWord(j, m, k, w, t)[16 - j.block..] == Value(j, m, k, HighBlock(j, k, t))
  {
    WordFits(j, |m|, k, w, t);
    InWordIsBlocks(j, m, k, w, t);
    MaskWordAfterCounting(j, m, Held(j, w), k, w, t);
    if j.hasXor { MaskWordIsBlocks(j, m, k, w, t); }
    ValueIs(j, m, k, LowBlock(j, k, t));
    ValueIs(j, m, k, HighBlock(j, k, t));
    var inw, mask := InWord(j, m, k, w, t), MaskWord(j, m, k, w, t);
    assert BatchWord(j, m, k, w, t) == OutWord(j, inw, mask);
    hide InWord, MaskWord, InBlock, Mask, Value, LowBlock, HighBlock, BatchWord, Ok, Batchable, Counted, Held;
    if j.block == 8 {
      OutWordHalves(j, inw, mask);
    } else {
      SixteenBlock(j, inw, mask);
    }
  }

  lemma SixteenBlock(j: Job, inw: seq<byte>, mask: seq<byte>)
    requires WellFormed(j) && j.block == 16 && |inw| == 16 && (j.hasXor ==> |mask| == 16)
    ensures inw[..16] == inw[0..] == inw && (j.hasXor ==> mask[..16] == mask[0..] == mask)
    ensures OutWord(j, inw, mask)[..16] == OutWord(j, inw, mask)[0..] == Transform(j, inw, mask)
  {}

  // ----- a batch stores its blocks

  /** The memory with the value of block i in its place. */
  ghost function StoreValue(j: Job, m: seq<byte>, s: seq<byte>, k: nat, i: nat): (s': seq<byte>)
    requires Ok(j, |m|) && k <= i < j.Count() && |s| == |m|
    ensures |s'| == |s|
  {
    BlockFits(j, |m|, i);
    ValueSize(j, m, k, i);
    Splice(s, OutAt(j, i), Value(j, m, k, i))
  }

  lemma StoreIs(j: Job, m: seq<byte>, s: seq<byte>, k: nat, i: nat, p: int, v: seq<byte>)
    requires Ok(j, |m|) && |s| == |m| && Placed(j, m, k, i, p, v)
    ensures k <= i < j.Count() && 0 <= p && p + |v| <= |s| && StoreValue(j, m, s, k, i) == Splice(s, p, v)
  {
    BlockFits(j, |m|, i);
    ValueSize(j, m, k, i);
  }

  lemma SpliceParts(s: seq<byte>, p: int, v: seq<byte>)
    requires 0 <= p && p + 16 <= |s| && |v| == 16
    ensures Splice(s, p, v) == Splice(Splice(s, p, v[..8]), p + 8, v[8..])
    ensures Splice(s, p, v) == Splice(Splice(s, p + 8, v[8..]), p, v[..8])
  {}

  lemma BlockOrder(j: Job, size: nat, k: nat, w: nat, n: nat, i: nat, i2: nat)
    requires Batchable(j, size, k, w) && n < w && i == k + Held(j, n) && i2 == i + 1
    ensures Ok(j, size) && k <= i < j.Count() && (j.block == 8 ==> i2 < j.Count()) && (j.block == 8 || j.block == 16)
    ensures j.block == 16 ==> LowBlock(j, k, n) == i
    ensures j.block == 8 && !j.flags.reverse ==> LowBlock(j, k, n) == i && HighBlock(j, k, n) == i2
    ensures j.block == 8 && j.flags.reverse ==> HighBlock(j, k, n) == i && LowBlock(j, k, n) == i2
  {}

  /** Block i lies at p and has value v. */
  ghost predicate Placed(j: Job, m: seq<byte>, k: nat, i: nat, p: int, v: seq<byte>)
    requires Ok(j, |m|)
  {
    k <= i < j.Count() && OutAt(j, i) == p && Value(j, m, k, i) == v
  }

  lemma Places(j: Job, m: seq<byte>, k: nat, i: nat, p: int, v: seq<byte>)
    requires Ok(j, |m|) && k <= i < j.Count() && OutAt(j, i) == p && Value(j, m, k, i) == v
    ensures Placed(j, m, k, i, p, v)
  {}

  lemma WholeWord(v: seq<byte>)
    requires |v| == 16
    ensures v[..16] == v
  {}

  /** The blocks of word n in the order of processing, with their places and values. */
  lemma WordBlocks(j: Job, m: seq<byte>, k: nat, w: nat, n: nat, i: nat, i2: nat, p: int, v: seq<byte>)
    requires Batchable(j, |m|, k, w) && MaskMissesTop(j) && n < w && i == k + Held(j, n) && i2 == i + 1
    requires p == WordAt(j, j.output, k, n) && v == BatchWord(j, m, k, w, n)
    ensures Ok(j, |m|) && (j.block == 8 || j.block == 16) && 0 <= p && p + 16 <= |m| && |v| == 16
    ensures j.block == 16 ==> Placed(j, m, k, i, p, v)
    ensures j.block == 8 && !j.flags.reverse ==> Placed(j, m, k, i, p, v[..8]) && Placed(j, m, k, i2, p + 8, v[8..])
    ensures j.block == 8 && j.flags.reverse ==> Placed(j, m, k, i, p + 8, v[8..]) && Placed(j, m, k, i2, p, v[..8])
  {
    hide *;
    WordFits(j, |m|, k, w, n);
    WordIsValues(j, m, k, w, n);
    WordHolds(j, |m|, k, w, n);
    BlockOrder(j, |m|, k, w, n, i, i2);
    if j.block == 16 {
      WholeWord(v);
      Places(j, m, k, i, p, v);
    } else if j.flags.reverse {
      Places(j, m, k, i, p + 8, v[8..]);
      Places(j, m, k, i2, p, v[..8]);
    } else {
      Places(j, m, k, i, p, v[..8]);
      Places(j, m, k, i2, p + 8, v[8..]);
    }
  }

  /** Storing a word stores its blocks, in the order of processing. */
  lemma WordStored(j: Job, m: seq<byte>, s: seq<byte>, k: nat, w: nat, n: nat, i: nat, i2: nat)
    requires Batchable(j, |m|, k, w) && MaskMissesTop(j) && n < w && |s| == |m| && i == k + Held(j, n) && i2 == i + 1
    ensures Ok(j, |m|) && k <= i < j.Count() && (j.block == 8 ==> i2 < j.Count())
    ensures 0 <= WordAt(j, j.output, k, n) && WordAt(j, j.output, k, n) + 16 <= |m|
    ensures Splice(s, WordAt(j, j.output, k, n), BatchWord(j, m, k, w, n))
         == if j.block == 8 then StoreValue(j, m, StoreValue(j, m, s, k, i), k, i2) else StoreValue(j, m, s, k, i)
  {
    hide *;
    var p, v: seq<byte> := WordAt(j, j.output, k, n), BatchWord(j, m, k, w, n);
    WordBlocks(j, m, k, w, n, i, i2, p, v);
    SpliceParts(s, p, v);
    if j.block == 16 {
      StoreIs(j, m, s, k, i, p, v);
    } else if j.flags.reverse {
      StoreIs(j, m, s, k, i, p + 8, v[8..]);
      StoreIs(j, m, StoreValue(j, m, s, k, i), k, i2, p, v[..8]);
    } else {
      StoreIs(j, m, s, k, i, p, v[..8]);
      StoreIs(j, m, StoreValue(j, m, s, k, i), k, i2, p + 8, v[8..]);
    }
  }

  lemma StoreGrows(j: Job, m: seq<byte>, s: seq<byte>, k: nat, n: nat, q: nat, i: nat, next: nat)
    requires Ok(j, |m|) && !j.flags.stationary && i == k + n < j.Count() && next == n + 1 && CounterClear(j, k + next)
    requires |s| == |m| && Done(j, m, s, k, n, q)
    ensures Done(j, m, StoreValue(j, m, s, k, i), k, next, q)
  {
    hide Done, Ok, Value, CounterClear, OutAt, Splice;
    BlockFits(j, |m|, i);
    ValueSize(j, m, k, i);
    DoneGrows(j, m, s, k, n, q, Value(j, m, k, i));
  }

  lemma DoneStart(j: Job, m: seq<byte>, k: nat, w: nat)
    requires Batchable(j, |m|, k, w)
    ensures Done(j, m, Counted(j, m, Held(j, w)), k, 0, Held(j, w))
  {
    if j.flags.counter {
      SpliceInside(m, j.input, Lanes.Bump(Slice(m, j.input, j.block), Held(j, w)));
      forall a | 0 <= a < |m| && !InCounter(j, a) ensures Counted(j, m, Held(j, w))[a] == m[a] {
        CountedElsewhere(j, m, Held(j, w), a);
      }
    }
  }

  /** One word more, with h blocks before it. */
  lemma WordDone(j: Job, m: seq<byte>, s: seq<byte>, k: nat, w: nat, n: nat, h: nat, h': nat)
    requires Batchable(j, |m|, k, w) && MaskMissesTop(j) && n < w && h == Held(j, n) && h' == Held(j, n + 1)
    requires k + h' <= j.Count() && CounterClear(j, k + h') && |s| == |m| && Ok(j, |m|) && Done(j, m, s, k, h, Held(j, w))
    ensures 0 <= WordAt(j, j.output, k, n) && WordAt(j, j.output, k, n) + 16 <= |m|
    ensures Done(j, m, Splice(s, WordAt(j, j.output, k, n), BatchWord(j, m, k, w, n)), k, h', Held(j, w))
  {
    WordSteps(j, |m|, k, w, n, h, h');
    hide *;
    var i, i2 := k + h, k + h + 1;
    WordStored(j, m, s, k, w, n, i, i2);
    var s1 := StoreValue(j, m, s, k, i);
    if j.block == 8 {
      StoreGrows(j, m, s, k, h, Held(j, w), i, h + 1);
      StoreGrows(j, m, s1, k, h + 1, Held(j, w), i2, h');
    } else {
      StoreGrows(j, m, s, k, h, Held(j, w), i, h');
    }
  }

  lemma WordSteps(j: Job, size: nat, k: nat, w: nat, n: nat, h: nat, h': nat)
    requires Batchable(j, size, k, w) && n < w && h == Held(j, n) && h' == Held(j, n + 1) && CounterClear(j, k + h')
    ensures !j.flags.stationary && (j.block == 8 || j.block == 16)
    ensures h' == h + (if j.block == 8 then 2 else 1) && k + h' <= j.Count()
    ensures CounterClear(j, k + h) && CounterClear(j, k + (h + 1))
  {}

  /** After n words their blocks have their values, whatever overlaps: all loads precede all stores. */
  lemma {:induction false} StoredDone(j: Job, m: seq<byte>, k: nat, w: nat, n: nat, h: nat)
    requires Batchable(j, |m|, k, w) && MaskMissesTop(j) && n <= w && h == Held(j, n) && CounterClear(j, k + h)
    ensures Ok(j, |m|) && k + h <= j.Count() && Done(j, m, Stored(j, m, k, w, n), k, h, Held(j, w))
  {
    HeldFits(j, |m|, k, w, n);
    hide *;
    if n == 0 {
      StoredNone(j, m, k, w);
      DoneStart(j, m, k, w);
    } else {
      var h0, n0 := Held(j, n - 1), n - 1;
      WordSteps(j, |m|, k, w, n0, h0, h);
      StoredDone(j, m, k, w, n0, h0);
      StoredNext(j, m, k, w, n0, n, Stored(j, m, k, w, n0));
      WordDone(j, m, Stored(j, m, k, w, n0), k, w, n0, h0, h);
    }
  }

  lemma HeldFits(j: Job, size: nat, k: nat, w: nat, n: nat)
    requires Batchable(j, size, k, w) && n <= w
    ensures Ok(j, size) && !j.flags.stationary && k + Held(j, n) <= j.Count() && (n == 0 <==> Held(j, n) == 0)
  {}

  lemma StoredNone(j: Job, m: seq<byte>, k: nat, w: nat)
    requires Batchable(j, |m|, k, w)
    ensures j.flags.counter ==> 0 < j.block && j.input + j.block <= |m|
    ensures Stored(j, m, k, w, 0) == Counted(j, m, Held(j, w))
  {}

  lemma StoredLast(j: Job, m: seq<byte>, k: nat, w: nat, n: nat)
    requires Batchable(j, |m|, k, w) && 0 < n <= w
    ensures 0 <= WordAt(j, j.output, k, n - 1) && WordAt(j, j.output, k, n - 1) + 16 <= |m|
    ensures Stored(j, m, k, w, n) ==
      Splice(Stored(j, m, k, w, n - 1), WordAt(j, j.output, k, n - 1), BatchWord(j, m, k, w, n - 1))
  {
    WordFits(j, |m|, k, w, n - 1);
  }

  lemma StoredNext(j: Job, m: seq<byte>, k: nat, w: nat, n0: nat, n: nat, s: seq<byte>)
    requires Batchable(j, |m|, k, w) && n == n0 + 1 && n <= w && s == Stored(j, m, k, w, n0)
    ensures 0 <= WordAt(j, j.output, k, n0) && WordAt(j, j.output, k, n0) + 16 <= |m| == |s|
    ensures Stored(j, m, k, w, n) == Splice(s, WordAt(j, j.output, k, n0), BatchWord(j, m, k, w, n0))
  {
    hide *;
    StoredLast(j, m, k, w, n);
  }

  /** Only the last block of a batch may lie over the counter: the memory before it is stored. */
  lemma StoredButLast(j: Job, m: seq<byte>, k: nat, w: nat, q: nat, n: nat, last: nat) returns (t: seq<byte>)
    requires Batchable(j, |m|, k, w) && MaskMissesTop(j) && w > 0 && q == Held(j, w) && n + 1 == q && last == k + n
    requires CounterClear(j, last)
    ensures Ok(j, |m|) && k <= last < j.Count() && |t| == |m| && Done(j, m, t, k, n, q)
    ensures Stored(j, m, k, w, w) == StoreValue(j, m, t, k, last)
  {
    var w0: nat := w - 1;
    var h := Held(j, w0);
    LastWord(j, |m|, k, w, w0, q, n, h, last);
    hide *;
    var s, i := Stored(j, m, k, w, w0), k + h;
    StoredDone(j, m, k, w, w0, h);
    StoredNext(j, m, k, w, w0, w, s);
    t := ButLastOf(j, m, s, k, w, w0, q, h, n, i, last);
  }

  lemma ButLastOf(j: Job, m: seq<byte>, s: seq<byte>, k: nat, w: nat, w0: nat, q: nat, h: nat, n: nat, i: nat, last: nat)
    returns (t: seq<byte>)
    requires Batchable(j, |m|, k, w) && MaskMissesTop(j) && w0 < w && |s| == |m| && h == Held(j, w0) && i == k + h
    requires Ok(j, |m|) && k + h <= last < j.Count() && last == k + n && Done(j, m, s, k, h, q)
    requires (j.block == 8 && n == h + 1) || (j.block == 16 && n == h)
    requires !j.flags.stationary && CounterClear(j, last)
    ensures 0 <= WordAt(j, j.output, k, w0) && WordAt(j, j.output, k, w0) + 16 <= |m|
    ensures k <= last && |t| == |m| && Done(j, m, t, k, n, q)
    ensures Splice(s, WordAt(j, j.output, k, w0), BatchWord(j, m, k, w, w0)) == StoreValue(j, m, t, k, last)
  {
    hide *;
    var i2 := i + 1;
    WordStored(j, m, s, k, w, w0, i, i2);
    if j.block == 8 {
      t := StoreValue(j, m, s, k, i);
      StoreGrows(j, m, s, k, h, q, i, n);
    } else {
      t := s;
    }
  }

  lemma LastWord(j: Job, size: nat, k: nat, w: nat, w0: nat, q: nat, n: nat, h: nat, last: nat)
    requires Batchable(j, size, k, w) && w == w0 + 1 && q == Held(j, w) && n + 1 == q && h == Held(j, w0) && last == k + n
    requires CounterClear(j, last)
    ensures Ok(j, size) && !j.flags.stationary && last < j.Count() && CounterClear(j, k + h) && CounterClear(j, k + n)
    ensures (j.block == 8 && n == h + 1) || (j.block == 16 && n == h)
  {}

  // ----- a batch is serial

  lemma SafeParts(j: Job, size: nat, last: nat)
    requires Ok(j, size) && SafeWithin(j, Span(j.block, j.Count())) && last < j.Count()
    ensures !j.flags.stationary && MaskMissesTop(j) && CounterClear(j, last)
  {}

  lemma StepIsStore(j: Job, m: seq<byte>, r: seq<byte>, k: nat, n: nat, last: nat)
    requires Ok(j, |m|) && last == k + n < j.Count() && |r| == |m| && ReadsValue(j, m, r, k, n)
    ensures j.flags.counter ==> 0 < j.block && j.input + j.block <= |m|
    ensures Step(j, r, last) == StoreValue(j, m, Counted(j, r, 1), k, last)
  {
    hide *;
    StepStores(j, m, r, k, n, last);
    Places(j, m, k, last, OutAt(j, last), Value(j, m, k, last));
    StoreIs(j, m, Counted(j, r, 1), k, last, OutAt(j, last), Value(j, m, k, last));
  }

  /** The memory in which the last of n + 1 serial steps stores its block. */
  lemma SerialButLast(j: Job, m: seq<byte>, k: nat, q: nat, n: nat, last: nat) returns (t: seq<byte>)
    requires Ok(j, |m|) && SafeWithin(j, Span(j.block, j.Count())) && last == k + n < j.Count() && n + 1 == q
    ensures |t| == |m| && Done(j, m, t, k, n, q)
    ensures SerialRun(j, m, k, q) == StoreValue(j, m, t, k, last)
  {
    SafeParts(j, |m|, last);
    hide *;
    var r := SerialRun(j, m, k, n);
    SerialOutcome(j, m, k, n);
    StepStoresValue(j, m, r, k, n);
    OutcomeIsDone(j, m, r, k, n);
    StepIsStore(j, m, r, k, n, last);
    SerialRunLast(j, m, k, q);
    t := Counted(j, r, 1);
    DoneCounts(j, m, r, k, n, n);
  }

  /** A batch of w words leaves the memory as the serial loop would. */
  lemma BatchIsSerial(j: Job, m: seq<byte>, k: nat, w: nat)
    requires Batchable(j, |m|, k, w) && SafeWithin(j, Span(j.block, j.Count())) && w > 0
    ensures Stored(j, m, k, w, w) == SerialRun(j, m, k, Held(j, w))
  {
    HeldFits(j, |m|, k, w, w);
    hide *;
    var q, n: nat := Held(j, w), Held(j, w) - 1;
    var last := k + n;
    SafeParts(j, |m|, last);
    var t := StoredButLast(j, m, k, w, q, n, last);
    var t' := SerialButLast(j, m, k, q, n, last);
    DoneIsUnique(j, m, t, t', k, n, q);
  }

  lemma SelfMaskedBatchIsSerial(j: Job, m: seq<byte>, k: nat, w: nat)
    requires Batchable(j, |m|, k, w) && SelfMasked(j)
    ensures Stored(j, m, k, w, w) == SerialRun(j, m, k, Held(j, w))
  {
    HeldFits(j, |m|, k, w, w);
    SelfMaskedParts(j);
    hide *;
    var n := Held(j, w);
    StoredDone(j, m, k, w, w, n);
    SelfMaskedOutcome(j, m, k, n);
    OutcomeIsDone(j, m, SerialRun(j, m, k, n), k, n);
    DoneIsUnique(j, m, Stored(j, m, k, w, w), SerialRun(j, m, k, n), k, n, n);
  }

  lemma SelfMaskedParts(j: Job)
    requires SelfMasked(j)
    ensures !j.flags.stationary && MaskMissesTop(j) && forall n :: CounterClear(j, n)
  {}
}
