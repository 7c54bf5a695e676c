/**
 A batch seen as a call of its own, on the part of the three areas it covers. What is safe
 for that smaller call decides whether the batch does what single blocks would do.
 */
module AdvWindows {
  import opened Bytes
  import Lanes
  import opened AdvBlocks
  import opened AdvBatches

  /** Where blocks k to k+n-1 of the area at `base` begin. */
  function PartAt(j: Job, base: nat, k: nat, n: nat): nat
    requires Span(j.block, k + n) <= j.length
  {
    base + if j.flags.reverse then j.length - Span(j.block, k + n) else Span(j.block, k)
  }

  /** The call on blocks k to k+n-1 alone. */
  function Window(j: Job, k: nat, n: nat): Job
    requires Span(j.block, k + n) <= j.length
  {
    j.(input := if j.Fixed() then j.input else PartAt(j, j.input, k, n),
       xor := PartAt(j, j.xor, k, n), output := PartAt(j, j.output, k, n), length := Span(j.block, n))
  }

  lemma WindowFits(j: Job, size: nat, k: nat, n: nat)
    requires Ok(j, size) && !j.flags.stationary && k + n <= j.Count()
    ensures Span(j.block, k + n) <= j.length && Ok(Window(j, k, n), size) && Window(j, k, n).Count() == n
    ensures SafeWithin(j, Span(j.block, n)) ==> SafeWithin(Window(j, k, n), Span(j.block, n))
  {}

  /** Whether a window is safe does not depend on where it lies. */
  lemma WindowHazard(j: Job, size: nat, k: nat, n: nat)
    requires Ok(j, size) && !j.flags.stationary && !j.flags.counter && k + n <= j.Count()
    ensures Span(j.block, k + n) <= j.length
    ensures Window(j, k, n).Count() == n
    ensures SafeWithin(Window(j, k, n), Span(j.block, n)) <==> SafeWithin(j, Span(j.block, n))
  {
    WindowFits(j, size, k, n);
  }

  lemma WindowAddresses(j: Job, size: nat, k: nat, n: nat, i: nat)
    requires Ok(j, size) && !j.flags.stationary && k + n <= j.Count() && i < n
    ensures Span(j.block, k + n) <= j.length
    ensures InAt(Window(j, k, n), i) == InAt(j, k + i) && OutAt(Window(j, k, n), i) == OutAt(j, k + i)
    ensures XorAt(Window(j, k, n), i) == XorAt(j, k + i)
  {}

  lemma WindowStep(j: Job, m: seq<byte>, k: nat, n: nat, i: nat)
    requires Ok(j, |m|) && !j.flags.stationary && k + n <= j.Count() && i < n
    ensures Span(j.block, k + n) <= j.length && Ok(Window(j, k, n), |m|) && Window(j, k, n).Count() == n
    ensures Step(Window(j, k, n), m, i) == Step(j, m, k + i)
  {
    WindowFits(j, |m|, k, n);
    WindowAddresses(j, |m|, k, n, i);
    BlockFits(j, |m|, k + i);
    hide Splice, Slice, InAt, OutAt, XorAt, Lanes.Bump, WellFormed, InMemory;
  }

  lemma {:induction false} WindowRun(j: Job, m: seq<byte>, k: nat, n: nat, a: nat)
    requires Ok(j, |m|) && !j.flags.stationary && k + n <= j.Count() && a <= n
    ensures Span(j.block, k + n) <= j.length && Ok(Window(j, k, n), |m|) && Window(j, k, n).Count() == n
    ensures SerialRun(Window(j, k, n), m, 0, a) == SerialRun(j, m, k, a)
  {
    hide *;
    WindowFits(j, |m|, k, n);
    var v := Window(j, k, n);
    if a == 0 {
      SerialRunNone(j, m, k);
      SerialRunNone(v, m, 0);
    } else {
      WindowRun(j, m, k, n, a - 1);
      SerialRunLast(j, m, k, a);
      SerialRunLast(v, m, 0, a);
      WindowStep(j, SerialRun(j, m, k, a - 1), k, n, a - 1);
    }
  }

  lemma WindowWordAt(j: Job, base: nat, k: nat, w: nat, t: nat)
    requires Span(j.block, k + Held(j, w)) <= j.length && (j.block == 8 || j.block == 16)
    ensures WordAt(Window(j, k, Held(j, w)), PartAt(j, base, k, Held(j, w)), 0, t) == WordAt(j, base, k, t)
  {}

  lemma WindowBatchable(j: Job, size: nat, k: nat, w: nat)
    requires Batchable(j, size, k, w)
    ensures Span(j.block, k + Held(j, w)) <= j.length && Batchable(Window(j, k, Held(j, w)), size, 0, w)
  {
    WindowFits(j, size, k, Held(j, w));
  }

  lemma WindowWord(j: Job, m: seq<byte>, k: nat, w: nat, t: nat)
    requires Batchable(j, |m|, k, w) && t < w
    ensures Span(j.block, k + Held(j, w)) <= j.length && Batchable(Window(j, k, Held(j, w)), |m|, 0, w)
    ensures BatchWord(Window(j, k, Held(j, w)), m, 0, w, t) == BatchWord(j, m, k, w, t)
  {
    WindowBatchable(j, |m|, k, w);
    WordFits(j, |m|, k, w, t);
    WindowWordAt(j, j.input, k, w, t);
    WindowWordAt(j, j.xor, k, w, t);
    hide Splice, Slice, WordAt, Lanes.Bump, InMemory;
  }

  lemma WindowCounted(j: Job, m: seq<byte>, k: nat, w: nat)
    requires Batchable(j, |m|, k, w)
    ensures Span(j.block, k + Held(j, w)) <= j.length
    ensures var v := Window(j, k, Held(j, w));
      && v.flags == j.flags && v.block == j.block && (j.flags.counter ==> v.input == j.input)
      && (j.flags.counter ==> 0 < j.block && j.input + j.block <= |m|)
      && Counted(v, m, Held(v, w)) == Counted(j, m, Held(j, w))
  {
    hide Splice, Slice, Lanes.Bump;
  }

  lemma WindowOutput(j: Job, size: nat, k: nat, w: nat, t: nat)
    requires Batchable(j, size, k, w) && t < w
    ensures Span(j.block, k + Held(j, w)) <= j.length
    ensures var v := Window(j, k, Held(j, w)); WordAt(v, v.output, 0, t) == WordAt(j, j.output, k, t)
  {}

  lemma {:induction false} WindowStored(j: Job, m: seq<byte>, k: nat, w: nat, n: nat)
    requires Batchable(j, |m|, k, w) && n <= w
    ensures Span(j.block, k + Held(j, w)) <= j.length && Batchable(Window(j, k, Held(j, w)), |m|, 0, w)
    ensures Stored(Window(j, k, Held(j, w)), m, 0, w, n) == Stored(j, m, k, w, n)
  {
    hide *;
    WindowBatchable(j, |m|, k, w);
    var v := Window(j, k, Held(j, w));
    if n == 0 {
      StoredNone(j, m, k, w);
      StoredNone(v, m, 0, w);
      WindowCounted(j, m, k, w);
    } else {
      WindowStored(j, m, k, w, n - 1);
      StoredLast(j, m, k, w, n);
      StoredLast(v, m, 0, w, n);
      WindowWord(j, m, k, w, n - 1);
      WindowOutput(j, |m|, k, w, n - 1);
    }
  }

  /** A batch of w words does what single blocks do as soon as 16 w octets of processing are safe. */
  lemma BatchIsSerialWithin(j: Job, m: seq<byte>, k: nat, w: nat)
    requires Batchable(j, |m|, k, w) && SafeWithin(j, 16 * w) && w > 0
    ensures Stored(j, m, k, w, w) == SerialRun(j, m, k, Held(j, w))
  {
    var n := Held(j, w);
    assert Span(j.block, n) == 16 * w;
    WindowFits(j, |m|, k, n);
    WindowBatchable(j, |m|, k, w);
    assert Held(Window(j, k, n), w) == n;
    assert Window(j, k, n).block == j.block;
    hide Stored, SerialRun, Batchable, SafeWithin, Window;
    BatchIsSerial(Window(j, k, n), m, 0, w);
    WindowStored(j, m, k, w, w);
    WindowRun(j, m, k, n, n);
  }
}
