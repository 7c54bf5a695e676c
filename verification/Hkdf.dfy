/** Extract-and-expand key derivation (RFC 5869). */
module Hkdf {
  import opened Bytes
  import opened Streams

  function MaxDerivedLength(h: Hmac): nat {
    h.size * 255
  }

  function GetValidDerivedLength(h: Hmac, length: nat): nat {
    if length > MaxDerivedLength(h) then MaxDerivedLength(h) else length
  }

  /** Section 2.2; an absent salt stands for zeros, an empty one does not. */
  function Extract(h: Hmac, salt: Input, secret: seq<byte>): seq<byte> {
    h.mac(if salt.Null? then Repeat(0, h.size) else salt.data, secret)
  }

  /** Section 2.3: T(i), with T(0) empty. */
  function T(h: Hmac, prk: seq<byte>, info: seq<byte>, i: nat): seq<byte>
    requires i <= 255
  {
    if i == 0 then [] else h.mac(prk, T(h, prk, info, i - 1) + info + [Octet(i)])
  }

  /** The blocks the standard defines; beyond 255 it defines none, and any string will do. */
  ghost function TBlocks(h: Hmac, prk: seq<byte>, info: seq<byte>): nat -> seq<byte> {
    i => if i < 255 then T(h, prk, info, i + 1) else h.mac([], [])
  }

  lemma TBlocksSized(h: Hmac, prk: seq<byte>, info: seq<byte>)
    requires h.Valid()
    ensures BlocksOf(TBlocks(h, prk, info), h.size)
  {
    var f := TBlocks(h, prk, info);
    forall i: nat ensures |f(i)| == h.size {
      assert f(i) == if i < 255 then T(h, prk, info, i + 1) else h.mac([], []);
    }
  }

  ghost function Expand(h: Hmac, prk: seq<byte>, info: seq<byte>, length: nat): (okm: seq<byte>)
    requires h.Valid()
    ensures |okm| == length
  {
    TBlocksSized(h, prk, info);
    Take(TBlocks(h, prk, info), h.size, length)
  }

  /** Every block of a permitted output is one the standard defines, and T's counter octet never wraps. */
  lemma OutputIsOfStandardBlocks(h: Hmac, prk: seq<byte>, info: seq<byte>, length: nat, i: nat)
    requires h.Valid() && length <= MaxDerivedLength(h) && i < Blocks(length, h.size)
    ensures i < 255
    ensures Octet(i + 1) == i + 1 && TBlocks(h, prk, info)(i) == T(h, prk, info, i + 1)
  {
    BlocksCover(length, h.size);
    assert i < 255 by {
      if 255 <= i { MulLe(256, Blocks(length, h.size), h.size); }
    }
  }

  /** A shorter key is a prefix of a longer one from the same inputs. */
  lemma ShorterKeyIsPrefix(h: Hmac, prk: seq<byte>, info: seq<byte>, a: nat, b: nat)
    requires h.Valid() && a <= b
    ensures Expand(h, prk, info, a) == Expand(h, prk, info, b)[..a]
  {
    TBlocksSized(h, prk, info);
    TakePrefix(TBlocks(h, prk, info), h.size, a, b);
  }

  lemma ExpandDone(h: Hmac, prk: seq<byte>, info: seq<byte>, out: seq<byte>, i: nat)
    requires h.Valid() && Filled(out, TBlocks(h, prk, info), h.size, i, |out|)
    ensures out == Expand(h, prk, info, |out|)
  {
    FilledAll(out, TBlocks(h, prk, info), h.size, i);
  }

  /** Before the last block of a permitted output fewer than 255 have been made. */
  lemma RoomForABlock(h: Hmac, i: nat, pos: nat, length: nat)
    requires h.Valid() && pos == i * h.size && pos < length <= MaxDerivedLength(h)
    ensures i < 255
  {
    if 255 <= i { MulLe(255, i, h.size); }
  }

  /** The expand loop. */
  method ExpandInto(h: Hmac, key: seq<byte>, info: seq<byte>, derived: array<byte>)
    requires h.Valid() && derived.Length <= MaxDerivedLength(h)
    modifies derived
    ensures derived[..] == Expand(h, key, info, derived.Length)
  {
    hide Filled, Expand, Take, MaxDerivedLength;
    TBlocksSized(h, key, info);
    ghost var f := TBlocks(h, key, info);
    FilledStart(derived[..], f, h.size);
    var block: byte, buffer := 0, Repeat(0, h.size);
    var pos: nat := 0;
    while pos < derived.Length
      invariant pos <= derived.Length && Filled(derived[..], f, h.size, block, pos)
      invariant block > 0 ==> buffer == T(h, key, info, block)
      invariant pos < derived.Length ==> pos == block as int * h.size
    {
      RoomForABlock(h, block, pos, derived.Length);
      var message := if block != 0 then buffer else [];
      ghost var i: nat := block;
      block := block + 1;
      buffer := h.mac(key, message + info + [block]);
      assert Octet(block as int) == block;
      assert buffer == f(i);
      var segmentLen := Min(derived.Length - pos, h.size);
      FilledNext(derived[..], f, h.size, i, pos, segmentLen);
      NextStart(i, h.size, pos, segmentLen);
      Put(derived, pos, buffer[..segmentLen]);
      pos := pos + segmentLen;
    }
    ExpandDone(h, key, info, derived[..], block);
  }

  lemma NextStart(i: nat, d: nat, pos: nat, count: nat)
    requires pos == i * d
    ensures count == d ==> pos + count == (i + 1) * d
  {
    Distribute(i, 1, d);
  }

  /** DeriveKey; false stands for the exception on a length beyond 255 digests. */
  method DeriveKey(h: Hmac, derived: array<byte>, secret: seq<byte>, salt: Input, info: seq<byte>) returns (ok: bool)
    requires h.Valid()
    modifies derived
    ensures ok == (derived.Length <= 255 * h.size)
    ensures derived[..] ==
      if ok then Expand(h, Extract(h, salt, secret), info, derived.Length) else old(derived[..])
  {
    if GetValidDerivedLength(h, derived.Length) != derived.Length { return false; }
    var key := Extract(h, salt, secret);
    ExpandInto(h, key, info, derived);
    ok := true;
  }

  // ----- derived keys, keyed digest by keyed digest

  /** Sections 2.2 and 2.3: the strings of a derivation, from the empty one on. */
  ghost predicate KeyedRun(h: Hmac, prk: seq<byte>, info: seq<byte>, run: seq<seq<byte>>) {
    && |run| > 0 && run[0] == []
    && forall i :: 0 < i < |run| ==> run[i] == h.mac(prk, run[i - 1] + info + [Octet(i)])
  }

  lemma {:induction false} TIsRun(h: Hmac, prk: seq<byte>, info: seq<byte>, run: seq<seq<byte>>, i: nat)
    requires KeyedRun(h, prk, info, run) && i < |run| && i <= 255
    ensures T(h, prk, info, i) == run[i]
  {
    if i > 0 { TIsRun(h, prk, info, run, i - 1); }
  }

  lemma RunOf(h: Hmac, prk: seq<byte>, info: seq<byte>, n: nat) returns (run: seq<seq<byte>>)
    ensures |run| == n + 1 && KeyedRun(h, prk, info, run)
  {
    run := [[]];
    for i := 0 to n
      invariant |run| == i + 1 && KeyedRun(h, prk, info, run)
    {
      run := run + [h.mac(prk, run[i] + info + [Octet(i + 1)])];
    }
  }

  lemma BlocksAtMost(h: Hmac, length: nat)
    requires h.Valid() && length <= MaxDerivedLength(h)
    ensures Blocks(length, h.size) <= 255
  {
    BlocksCover(length, h.size);
    if 256 <= Blocks(length, h.size) { MulLe(256, Blocks(length, h.size), h.size); }
  }

  /**
   A derived key is the front of T(1), T(2), ..., where T(i) = HMAC(PRK, T(i-1) || info || i), and
   PRK = HMAC(salt, secret), with zeros for an absent salt.
   */
  lemma DerivedKeyIs(h: Hmac, salt: Input, secret: seq<byte>, info: seq<byte>, length: nat)
    returns (run: seq<seq<byte>>)
    requires h.Valid() && length <= 255 * h.size
    ensures KeyedRun(h, h.mac(if salt.Given? then salt.data else Repeat(0, h.size), secret), info, run)
    ensures CutFrom(Expand(h, Extract(h, salt, secret), info, length), run[1..], h.size)
  {
    hide KeyedRun, Blocks, Take, CutFrom, T;
    var prk := Extract(h, salt, secret);
    var n := Blocks(length, h.size);
    BlocksAtMost(h, length);
    run := RunOf(h, prk, info, n);
    TBlocksSized(h, prk, info);
    var f := TBlocks(h, prk, info);
    forall i | 0 <= i < n ensures run[1..][i] == f(i) {
      TIsRun(h, prk, info, run, i + 1);
    }
    TakeIsCut(f, h.size, length, run[1..]);
  }
}
