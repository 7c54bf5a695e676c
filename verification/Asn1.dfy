/** DER encoding and BER decoding of unsigned integers (ITU-T X.690, sections 8.1.3, 8.2, 8.3, 8.4). */
module Asn1 {
  import opened Bytes
  import opened Numbers
  import opened Options

  const BOOLEAN: byte := 0x01
  const INTEGER: byte := 0x02
  const ENUMERATED: byte := 0x0a

  /** A BufferedTransformation as this code uses it: a queue of octets. */
  class ByteQueue {
    var contents: seq<byte>

    constructor ()
      ensures contents == []
    {
      contents := [];
    }

    method Append(s: seq<byte>)
      modifies this
      ensures contents == old(contents) + s
    {
      contents := contents + s;
    }

    /** Removes up to `n` octets from the front. */
    method Get(n: nat) returns (s: seq<byte>)
      modifies this
      ensures s == old(contents)[..Min(n, |old(contents)|)]
      ensures contents == old(contents)[Min(n, |old(contents)|)..]
    {
      var k := Min(n, |contents|);
      s, contents := contents[..k], contents[k..];
    }
  }

  // ----- length octets (section 8.1.3)

  /** The definite form, in one octet when it can be. */
  function DerLength(n: nat): seq<byte>
    requires n < Pow256(8)
  {
    if n < 128 then [n] else
      ByteCountAtMost(n, 8);
      [Octet(128 + ByteCount(n))] + ToBe(n, ByteCount(n))
  }

  datatype LengthOctets = Malformed | Indefinite | Definite(length: nat, rest: seq<byte>)

  /** A length that does not fit eight octets' value is malformed. */
  function BerLength(s: seq<byte>): LengthOctets {
    if s == [] then Malformed
    else if s[0] < 128 then Definite(s[0], s[1..])
    else
      var n := s[0] - 128;
      if n == 0 then Indefinite
      else if |s| < 1 + n || Be(s[1..1 + n]) >= Pow256(8) then Malformed
      else Definite(Be(s[1..1 + n]), s[1 + n..])
  }

  lemma ByteCountAtMost(n: nat, k: nat)
    requires n < Pow256(k)
    ensures ByteCount(n) <= k
  {
    if n > 0 {
      ByteCountBounds(n);
      var c: nat := ByteCount(n) - 1;
      if k <= c { Pow256Mono(k, c); }
    }
  }

  lemma LengthRoundTrip(n: nat, tail: seq<byte>)
    requires n < Pow256(8)
    ensures BerLength(DerLength(n) + tail) == Definite(n, tail)
  {
    hide Be, ToBe, Pow256, ByteCount;
    if n < 128 {
      assert (DerLength(n) + tail)[1..] == tail;
    } else {
      ByteCountAtMost(n, 8);
      ByteCountBounds(n);
      LongFormReads(n, ByteCount(n), tail);
    }
  }

  lemma LongFormReads(n: nat, k: nat, tail: seq<byte>)
    requires 0 < k <= 8 && n < Pow256(k) && n < Pow256(8)
    ensures BerLength([Octet(128 + k)] + ToBe(n, k) + tail) == Definite(n, tail)
  {
    hide Be, ToBe, Pow256, ByteCount;
    BeToBeSmall(n, k);
    var s := [Octet(128 + k)] + ToBe(n, k) + tail;
    assert s[1..1 + k] == ToBe(n, k) && s[1 + k..] == tail;
  }

  /** The long form: the number of octets behind the first one, and the length in them. */
  predicate LongForm(l: seq<byte>, n: nat) {
    1 < |l| < 129 && l[0] == 128 + (|l| - 1) && Be(l[1..]) == n && n < Pow256(8)
  }

  /** Section 8.1.3: exactly these strings start with a definite length. */
  lemma DefiniteExactlyWhen(s: seq<byte>, n: nat, rest: seq<byte>)
    ensures BerLength(s) == Definite(n, rest)
       <==> exists l :: s == l + rest && ((n < 128 && l == [n]) || LongForm(l, n))
  {
    hide Be, Pow256;
    if BerLength(s) == Definite(n, rest) {
      var l := s[..|s| - |rest|];
      assert s == l + rest;
      if s[0] >= 128 { assert l[1..] == s[1..1 + (s[0] - 128)]; }
    }
    if l :| s == l + rest && ((n < 128 && l == [n]) || LongForm(l, n)) {
      if LongForm(l, n) { assert s[1..|l|] == l[1..]; }
      assert s[|l|..] == rest;
    }
  }

  /** DER: one octet up to 127, and behind that no leading zero. */
  lemma DerLengthIs(n: nat)
    requires n < Pow256(8)
    ensures n < 128 ==> DerLength(n) == [n]
    ensures n >= 128 ==> LongForm(DerLength(n), n) && DerLength(n)[1] != 0
  {
    hide Be, ToBe, Pow256, ByteCount;
    if n >= 128 {
      ByteCountAtMost(n, 8);
      ByteCountBounds(n);
      var k := ByteCount(n);
      BeToBeSmall(n, k);
      TopOctetZero(n, k);
      assert DerLength(n)[1..] == ToBe(n, k);
    }
  }

  /** No definite form of a length is shorter, and no other one as short. */
  lemma DerLengthIsShortest(n: nat, l: seq<byte>)
    requires n < Pow256(8) && BerLength(l) == Definite(n, [])
    ensures |DerLength(n)| <= |l| && (|DerLength(n)| == |l| ==> DerLength(n) == l)
  {
    hide Be, Pow256, BerLength, DerLength;
    DefiniteExactlyWhen(l, n, []);
    var l' :| l == l' + [] && ((n < 128 && l' == [n]) || LongForm(l', n));
    assert l == l';
    DerLengthIs(n);
    if n >= 128 {
      var m := DerLength(n);
      if |l| < |m| {
        BeBound(l[1..]);
        LeadingOctetCounts(m[1..], |l| - 1);
      } else if |l| == |m| {
        BeInjective(l[1..], m[1..]);
        assert l == [l[0]] + l[1..] && m == [m[0]] + m[1..];
      }
    }
  }

  // ----- contents octets

  /** The shortest two's-complement form of a non-negative integer. */
  function Minimal(w: nat): (c: seq<byte>)
    ensures |c| >= 1
  {
    var s := ToBe(w, MinEncodedSize(w));
    if s[0] >= 128 then [0] + s else s
  }

  function Contents(w: nat, tag: byte): (c: seq<byte>)
    ensures |c| >= 1
  {
    if tag == BOOLEAN then [if w != 0 then 0xff else 0] else Minimal(w)
  }

  function Encoding(w: nat, tag: byte): seq<byte>
    requires |Contents(w, tag)| < Pow256(8)
  {
    [tag] + DerLength(|Contents(w, tag)|) + Contents(w, tag)
  }

  /** A two's-complement string of a non-negative value: no sign bit. */
  predicate NonNegative(c: seq<byte>) {
    |c| > 0 && c[0] < 128
  }

  lemma TopOctet(s: seq<byte>)
    requires |s| > 0
    ensures Be(s) == s[0] * Pow256(|s| - 1) + Be(s[1..]) && Be(s[1..]) < Pow256(|s| - 1)
  {
    assert s == [s[0]] + s[1..];
    BeFront(s[0], s[1..]);
    BeBound(s[1..]);
  }

  /** The top octet is zero exactly when one octet less would do. */
  lemma TopOctetZero(w: nat, n: nat)
    requires w < Pow256(n) && n > 0
    ensures ToBe(w, n)[0] == 0 <==> w < Pow256(n - 1)
  {
    var s := ToBe(w, n);
    BeToBeSmall(w, n);
    TopOctet(s);
    var p, x := Pow256(n - 1), s[0];
    hide Be, ToBe, Pow256;
    if x > 0 { MulLe(1, x, p); }
  }

  lemma MinimalSize(w: nat, n: nat)
    requires n > 0 && w < Pow256(n) && (n == 1 || w >= Pow256(n - 1))
    ensures n == MinEncodedSize(w)
  {
    hide Pow256, ByteCount;
    ByteCountAtMost(w, n);
    if w == 0 {
      assert Pow256(n - 1) > 0;
    } else {
      ByteCountBounds(w);
      if n > 1 && ByteCount(w) < n { Pow256Mono(ByteCount(w), n - 1); }
    }
  }

  /** Section 8.3.2: value, sign, and first nine bits neither all zero nor all one. */
  lemma MinimalIsTwosComplement(w: nat)
    ensures Be(Minimal(w)) == w && NonNegative(Minimal(w))
    ensures |Minimal(w)| > 1 ==> !(Minimal(w)[0] == 0 && Minimal(w)[1] < 128)
    ensures |Minimal(w)| > 1 ==> !(Minimal(w)[1] >= 128 && Minimal(w)[0] == 0xff)
  {
    var n := MinEncodedSize(w);
    var s := ToBe(w, n);
    MinEncodedSizeFits(w);
    BeToBeSmall(w, n);
    if s[0] >= 128 {
      BeFront(0, s);
    } else if n > 1 {
      ByteCountBounds(w);
      TopOctetZero(w, n);
    }
  }

  /** No shorter string without a sign bit has the value, and no other one of that length. */
  lemma MinimalIsShortest(w: nat, c: seq<byte>)
    requires NonNegative(c) && Be(c) == w
    ensures |Minimal(w)| <= |c|
    ensures |Minimal(w)| == |c| ==> c == Minimal(w)
  {
    MinimalIsTwosComplement(w);
    var m := Minimal(w);
    if |m| == |c| {
      BeInjective(c, m);
    } else if |c| < |m| {
      BeBound(c);
      var n := MinEncodedSize(w);
      MinEncodedSizeFits(w);
      if |c| < n {
        ByteCountBounds(w);
        Pow256Mono(|c|, n - 1);
      } else {
        assert |c| == n;
        BeToBeSmall(w, n);
        BeInjective(c, ToBe(w, n));
      }
    }
  }

  // ----- encoding

  /** The loop that writes the integer into buf[1..]. */
  method FillBuffer(w: nat, size: nat, buf: array<byte>)
    requires buf.Length == size + 1
    modifies buf
    ensures buf[..] == [old(buf[..])[0]] + ToBe(w, size)
  {
    hide Shr, ToBe, Octet;
    var i := 0;
    while i < size
      invariant 0 <= i <= size && buf[0] == old(buf[0])
      invariant buf[1..i + 1] == ToBe(Shr(w, 8 * (size - i)), i)
    {
      ShiftedOctets(w, size - 1 - i, i);
      ghost var before := buf[1..i + 1];
      buf[i + 1] := Octet(Shr(w, (size - 1 - i) * 8));
      assert buf[1..i + 2] == before + [buf[i + 1]];
      i := i + 1;
    }
    NoShift(w);
    assert buf[1..] == buf[1..size + 1];
  }

  lemma NoShift(w: nat)
    ensures Shr(w, 0) == w
  {}

  /** One more octet of the shifted value. */
  lemma ShiftedOctets(w: nat, k: nat, i: nat)
    ensures ToBe(Shr(w, 8 * k), i + 1) == ToBe(Shr(w, 8 * (k + 1)), i) + [Octet(Shr(w, k * 8))]
  {
    hide Shr;
    ShrOctet(w, k);
  }

  /** The loop that drops leading zero octets. */
  method SignificantOctets(w: nat, size: nat, buf: array<byte>) returns (bc: nat)
    requires size > 0 && w < Pow256(size) && buf.Length == size + 1 && buf[..] == [0] + ToBe(w, size)
    ensures 1 <= bc <= size && bc == MinEncodedSize(w)
    ensures buf[size + 1 - bc..] == ToBe(w, bc) && buf[size - bc] == 0
  {
    hide ToBe, Pow256, MinEncodedSize;
    bc := size;
    assert buf[1..] == ToBe(w, size);
    while bc > 1 && buf[size + 1 - bc] == 0
      invariant 1 <= bc <= size && w < Pow256(bc)
      invariant buf[size + 1 - bc..] == ToBe(w, bc) && buf[size - bc] == 0
      decreases bc
    {
      assert buf[size + 1 - bc] == ToBe(w, bc)[0];
      TopOctetZero(w, bc);
      ToBeSuffix(w, 1, bc - 1);
      assert buf[size + 2 - bc..] == buf[size + 1 - bc..][1..];
      bc := bc - 1;
    }
    assert buf[size + 1 - bc] == ToBe(w, bc)[0];
    TopOctetZero(w, bc);
    MinimalSize(w, bc);
  }

  /** The part of DEREncodeUnsigned that prepares the contents in its local buffer. */
  method PrepareContents(w: nat, size: nat, tag: byte) returns (c: seq<byte>)
    requires size > 0 && w < Pow256(size)
    ensures c == Contents(w, tag) && |c| <= size + 1
  {
    hide ToBe, Pow256, MinEncodedSize;
    var buf := new byte[size + 1];
    if tag == BOOLEAN {
      buf[size] := if w != 0 then 0xff else 0;
      return buf[size..];
    }
    buf[0] := 0;
    FillBuffer(w, size, buf);
    var bc := SignificantOctets(w, size, buf);
    assert buf[size + 1 - bc] == ToBe(w, bc)[0];
    if buf[size + 1 - bc] >= 128 {
      bc := bc + 1;
      assert buf[size + 1 - bc..] == [0] + buf[size + 2 - bc..];
    }
    c := buf[size + 1 - bc..];
  }

  /** DEREncodeUnsigned for a type of `size` octets; the result counts the octets appended. */
  method DerEncodeUnsigned(output: ByteQueue, w: nat, size: nat, tag: byte) returns (n: nat)
    requires size > 0 && w < Pow256(size) && size + 1 < Pow256(8)
    modifies output
    ensures |Contents(w, tag)| <= size + 1
    ensures output.contents == old(output.contents) + Encoding(w, tag)
    ensures n == |output.contents| - |old(output.contents)|
  {
    hide Contents, DerLength, Pow256;
    var c := PrepareContents(w, size, tag);
    output.Append([tag]);
    var length := DerLength(|c|);
    output.Append(length);
    output.Append(c);
    n := 1 + |length| + |c|;
    assert old(output.contents) + [tag] + length + c == old(output.contents) + ([tag] + length + c);
  }

  // ----- decoding

  /**
   What decoding must return: the octets' value when tag, length and value are acceptable,
   and the octets behind. A value is acceptable when it fits the type and the range.
   */
  function Parse(s: seq<byte>, size: nat, tag: byte, min: nat, max: nat): (r: Option<(nat, seq<byte>)>) {
    if s == [] || s[0] != tag then None else
      var l := BerLength(s[1..]);
      if !l.Definite? || l.length > |l.rest| then None
      else if tag == BOOLEAN && l.length != 1 then None
      else if (tag == INTEGER || tag == ENUMERATED) && l.length == 0 then None
      else
        var v := Be(l.rest[..l.length]);
        if v < Pow256(size) && min <= v <= max then Some((v, l.rest[l.length..])) else None
  }

  /** BERLengthDecode on the queue. */
  method BerLengthDecode(input: ByteQueue) returns (l: LengthOctets)
    modifies input
    ensures l == BerLength(old(input.contents))
    ensures l.Definite? ==> input.contents == l.rest
  {
    ghost var s := input.contents;
    var b := input.Get(1);
    if b == [] { return Malformed; }
    if b[0] < 128 { return Definite(b[0], input.contents); }
    var n := b[0] - 128;
    if n == 0 { return Indefinite; }
    var octets := input.Get(n);
    if |octets| < n { return Malformed; }
    assert octets == s[1..1 + n];
    assert input.contents == s[1 + n..];
    if Be(octets) >= Pow256(8) { return Malformed; }
    l := Definite(Be(octets), input.contents);
  }

  lemma DropLeadingZero(s: seq<byte>)
    requires |s| > 0 && s[0] == 0
    ensures Be(s) == Be(s[1..])
  {
    assert s == [0] + s[1..];
    BeFront(0, s[1..]);
  }

  lemma LeadingOctetCounts(s: seq<byte>, size: nat)
    requires |s| > size && s[0] != 0
    ensures Be(s) >= Pow256(size)
  {
    TopOctet(s);
    var p, x := Pow256(|s| - 1), s[0];
    Pow256Mono(size, |s| - 1);
    hide Be, Pow256;
    MulLe(1, x, p);
  }

  /** The loop over leading zero octets, and the overflow test behind it. */
  method StripZeros(buf: seq<byte>, size: nat) returns (at: nat, fits: bool)
    ensures at <= |buf| && Be(buf[at..]) == Be(buf)
    ensures fits == (Be(buf) < Pow256(size)) && (fits ==> |buf| - at <= size)
  {
    hide Be, Pow256;
    var bc: nat := |buf|;
    at := 0;
    assert buf[0..] == buf;
    while bc > size && buf[at] == 0
      invariant at + bc == |buf| && Be(buf[at..]) == Be(buf)
      decreases bc
    {
      DropLeadingZero(buf[at..]);
      assert buf[at..][1..] == buf[at + 1..];
      bc, at := bc - 1, at + 1;
    }
    fits := bc <= size;
    if fits {
      BeBound(buf[at..]);
      Pow256Mono(bc, size);
    } else {
      LeadingOctetCounts(buf[at..], size);
    }
  }

  /** The loop w = (w << 8) | octet. No step overflows the type. */
  method Accumulate(octets: seq<byte>, size: nat) returns (w: nat)
    requires |octets| <= size
    ensures w == Be(octets) && w < Pow256(size)
  {
    hide Be, Pow256;
    w := 0;
    EmptyBe();
    assert octets[..0] == [];
    for i := 0 to |octets|
      invariant w == Be(octets[..i])
    {
      AppendBe(octets[..i], octets[i]);
      assert octets[..i + 1] == octets[..i] + [octets[i]];
      w := 256 * w + octets[i];
    }
    assert octets[..|octets|] == octets;
    BeBound(octets);
    Pow256Mono(|octets|, size);
  }

  lemma EmptyBe()
    ensures Be([]) == 0
  {}

  lemma AppendBe(s: seq<byte>, b: byte)
    ensures Be(s + [b]) == 256 * Be(s) + b
  {
    assert (s + [b])[..|s|] == s;
  }

  /** BERDecodeUnsigned; None stands for the decoding exception. */
  method BerDecodeUnsigned(input: ByteQueue, size: nat, tag: byte, min: nat, max: nat) returns (w: Option<nat>)
    modifies input
    ensures var r := Parse(old(input.contents), size, tag, min, max);
      && w == (if r.Some? then Some(r.value.0) else None)
      && (r.Some? ==> input.contents == r.value.1)
  {
    hide Be, Pow256, BerLength;
    ghost var s := input.contents;
    var b := input.Get(1);
    if b == [] || b[0] != tag { return None; }
    assert input.contents == s[1..];
    var l := BerLengthDecode(input);
    if !l.Definite? { return None; }
    var bc := l.length;
    if bc > |input.contents| { return None; }
    if tag == BOOLEAN && bc != 1 { return None; }
    if (tag == INTEGER || tag == ENUMERATED) && bc == 0 { return None; }
    var buf := input.Get(bc);
    assert buf == l.rest[..bc];
    var at, fits := StripZeros(buf, size);
    if !fits { return None; }
    var v := Accumulate(buf[at..], size);
    if v < min || v > max { return None; }
    w := Some(v);
  }

  // ----- round trip

  /** What decoding accepts: tag, length octets, as many contents octets, and any rest. */
  predicate Parts(s: seq<byte>, tag: byte, l: seq<byte>, c: seq<byte>, rest: seq<byte>) {
    s == [tag] + l + c + rest && ((|c| < 128 && l == [|c|]) || LongForm(l, |c|))
  }

  lemma PartsRead(s: seq<byte>, tag: byte, l: seq<byte>, c: seq<byte>, rest: seq<byte>)
    requires Parts(s, tag, l, c, rest)
    ensures s != [] && s[0] == tag && BerLength(s[1..]) == Definite(|c|, c + rest)
    ensures (c + rest)[..|c|] == c && (c + rest)[|c|..] == rest
  {
    hide BerLength, LongForm;
    assert s[1..] == l + (c + rest);
    DefiniteExactlyWhen(s[1..], |c|, c + rest);
  }

  /** A string starts with a tag and a definite length that fits exactly when it has these parts. */
  lemma PartsOf(s: seq<byte>, tag: byte, c: seq<byte>, rest: seq<byte>) returns (l: seq<byte>)
    requires s != [] && s[0] == tag && BerLength(s[1..]) == Definite(|c|, c + rest)
    ensures Parts(s, tag, l, c, rest)
  {
    hide BerLength, LongForm;
    var tail, n := s[1..], |c|;
    DefiniteExactlyWhen(tail, n, c + rest);
    l :| tail == l + (c + rest) && ((n < 128 && l == [n]) || LongForm(l, n));
    assert s == [tag] + tail;
    assert [tag] + (l + (c + rest)) == [tag] + l + c + rest;
  }

  /** Decoding accepts exactly these strings. */
  predicate Decodes(s: seq<byte>, size: nat, tag: byte, min: nat, max: nat, v: nat, l: seq<byte>, c: seq<byte>, rest: seq<byte>) {
    && Parts(s, tag, l, c, rest)
    && (tag == 0x01 ==> |c| == 1) && (tag == 0x02 || tag == 0x0a ==> |c| > 0)
    && Be(c) == v && v < Pow256(size) && min <= v <= max
  }

  /**
   The decoder accepts a string, with this value and rest, exactly when the string is the tag, a
   length in any definite form, contents of that length with this value, and the rest; a BOOLEAN
   has one octet of contents, an INTEGER or ENUMERATED at least one.
   */
  lemma ParsesExactlyWhen(s: seq<byte>, size: nat, tag: byte, min: nat, max: nat, v: nat, rest: seq<byte>)
    ensures Parse(s, size, tag, min, max) == Some((v, rest))
       <==> exists l, c :: Decodes(s, size, tag, min, max, v, l, c, rest)
  {
    hide Be, Pow256, BerLength, Parts;
    if Parse(s, size, tag, min, max) == Some((v, rest)) {
      var d := BerLength(s[1..]);
      var c := d.rest[..d.length];
      assert d.rest == c + rest;
      var l := PartsOf(s, tag, c, rest);
      assert Decodes(s, size, tag, min, max, v, l, c, rest);
    }
    if l, c :| Decodes(s, size, tag, min, max, v, l, c, rest) {
      PartsRead(s, tag, l, c, rest);
    }
  }

  /** An integer in the decoder's range comes back, with the following octets untouched; others do not. */
  lemma RoundTrip(w: nat, size: nat, tag: byte, min: nat, max: nat, tail: seq<byte>)
    requires tag != BOOLEAN && w < Pow256(size) && |Minimal(w)| < Pow256(8)
    ensures Parse(Encoding(w, tag) + tail, size, tag, min, max) == Some((w, tail)) <==> min <= w <= max
  {
    MinimalIsTwosComplement(w);
    hide Be, Pow256, BerLength, DerLength, Minimal;
    EncodingParts(w, tag, tail);
  }

  lemma EncodingParts(w: nat, tag: byte, tail: seq<byte>)
    requires |Contents(w, tag)| < Pow256(8)
    ensures var c := Contents(w, tag);
      var s := Encoding(w, tag) + tail;
      && |s| > 0 && s[0] == tag
      && BerLength(s[1..]) == Definite(|c|, c + tail)
      && (c + tail)[..|c|] == c && (c + tail)[|c|..] == tail
  {
    hide Contents, Pow256, BerLength, DerLength;
    var c := Contents(w, tag);
    var s := Encoding(w, tag) + tail;
    assert s[1..] == DerLength(|c|) + (c + tail);
    LengthRoundTrip(|c|, c + tail);
  }

  /** A BOOLEAN keeps only its truth value: exactly 0 and 255 come back as they were. */
  lemma BooleanRoundTrip(w: nat, size: nat, max: nat, tail: seq<byte>)
    requires size > 0 && w < Pow256(size) && max >= 0xff
    ensures Parse(Encoding(w, BOOLEAN) + tail, size, BOOLEAN, 0, max) == Some((if w != 0 then 0xff else 0, tail))
    ensures Parse(Encoding(w, BOOLEAN) + tail, size, BOOLEAN, 0, max) == Some((w, tail)) <==> w == 0 || w == 0xff
  {
    Pow256Mono(1, size);
    assert Pow256(1) == 256;
    EncodingParts(w, BOOLEAN, tail);
    var c := Contents(w, BOOLEAN);
    AppendBe([], c[0]);
    EmptyBe();
    assert [] + c == c;
    hide Be, Pow256, BerLength, DerLength;
  }

  /** Equal encodings under one tag mean equal integers. */
  lemma EncodingIsInjective(w: nat, w': nat, tag: byte)
    requires tag != BOOLEAN && |Minimal(w)| < Pow256(8) && |Minimal(w')| < Pow256(8)
    requires Encoding(w, tag) == Encoding(w', tag)
    ensures w == w'
  {
    hide Be, Pow256, BerLength, DerLength, Minimal;
    EncodingParts(w, tag, []);
    EncodingParts(w', tag, []);
    MinimalIsTwosComplement(w);
    MinimalIsTwosComplement(w');
    assert Minimal(w) + [] == Minimal(w) && Minimal(w') + [] == Minimal(w');
  }
}
