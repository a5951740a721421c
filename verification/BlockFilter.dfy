// Golomb-coded block filters (netcoin/blockfilter.py; BIP 158 section "Golomb-Coded Sets").
module BlockFilter {
  import opened Arithmetic
  import opened BitStrings
  import opened Sorting

  const GOLOMB_P := 19
  const REMAINDERS := 524288
  const FILTER_M := 784931

  type Bytes = seq<nat>

  // ---- codes ----

  function Ones(n: nat): (b: Bits)
    ensures |b| == n
  {
    if n == 0 then [] else [true] + Ones(n - 1)
  }

  function Unary(quotient: nat): Bits {
    Ones(quotient) + [false]
  }

  function DeltaCode(delta: nat): Bits {
    Unary(delta / REMAINDERS) + BitsOf(delta % REMAINDERS, GOLOMB_P)
  }

  // Ascending values, each coded by its distance from the one before.
  ghost predicate Ascending(values: seq<nat>, last: nat) {
    values != [] ==> last <= values[0] && Ascending(values[1..], values[0])
  }

  function Code(values: seq<nat>, last: nat): Bits
    requires Ascending(values, last)
  {
    if values == [] then [] else DeltaCode(values[0] - last) + Code(values[1..], values[0])
  }

  // Packing bits into bytes, the last byte padded with zero bits.
  function Pack(bits: Bits): (bytes: Bytes)
    decreases |bits|
  {
    if bits == [] then []
    else if |bits| <= 8 then [Value(bits + Zeros(8 - |bits|))]
    else [Value(bits[..8])] + Pack(bits[8..])
  }

  lemma {:induction false} OnesAreSet(n: nat)
    ensures forall i :: 0 <= i < n ==> Ones(n)[i]
  {
    if n > 0 {
      OnesAreSet(n - 1);
    }
  }

  // A distance in bits: as many ones as its quotient, a zero, and nineteen bits of remainder, the
  // highest first.
  lemma DeltaInBits(quotient: nat, low: Bits)
    requires |low| == 19
    ensures var bits := DeltaCode(quotient * 524288 + Value(low));
            && |bits| == quotient + 20 && (forall i :: 0 <= i < quotient ==> bits[i])
            && !bits[quotient] && bits[quotient + 1..] == low
  {
    BitsOfValue(low);
    RemaindersArePow2();
    OnesAreSet(quotient);
    hide Value, BitsOf, Pow2, Ones;
    var delta := quotient * 524288 + Value(low);
    assert delta / REMAINDERS == quotient && delta % REMAINDERS == Value(low);
  }

  // ---- reading: past the end there are only zero bits ----

  function ParseUnary(bits: Bits): (r: (nat, Bits))
    ensures |r.1| <= |bits|
  {
    if bits == [] || !bits[0] then (0, if bits == [] then [] else bits[1..])
    else
      var (quotient, rest) := ParseUnary(bits[1..]);
      (quotient + 1, rest)
  }

  function ParseBits(bits: Bits, count: nat, value: nat): (nat, Bits) {
    if count == 0 then (value, bits)
    else if bits == [] then ParseBits([], count - 1, 2 * value)
    else ParseBits(bits[1..], count - 1, 2 * value + (if bits[0] then 1 else 0))
  }

  // The search that filter_match performs on the remaining bits.
  function Search(bits: Bits, count: nat, last: nat, target: nat): bool
    decreases count
  {
    if count == 0 then false
    else
      var (quotient, rest) := ParseUnary(bits);
      var (remainder, rest') := ParseBits(rest, GOLOMB_P, 0);
      var value := last + (quotient * REMAINDERS + remainder);
      if value == target then true
      else if value > target then false
      else Search(rest', count - 1, value, target)
  }

  // ---- what reading a code gives ----

  lemma {:induction false} ParseUnaryOfUnary(quotient: nat, rest: Bits)
    ensures ParseUnary(Unary(quotient) + rest) == (quotient, rest)
  {
    var bits := Unary(quotient) + rest;
    if quotient == 0 {
      assert bits[1..] == rest;
    } else {
      assert bits[1..] == Unary(quotient - 1) + rest;
      ParseUnaryOfUnary(quotient - 1, rest);
    }
  }

  lemma {:induction false} ParseBitsOfBits(b: Bits, rest: Bits, value: nat)
    ensures ParseBits(b + rest, |b|, value) == (value * Pow2(|b|) + Value(b), rest)
    decreases |b|
  {
    if b == [] {
      assert b + rest == rest;
    } else {
      var bit := if b[0] then 1 else 0;
      ParseBitsOfBits(b[1..], rest, 2 * value + bit);
      assert (b + rest)[1..] == b[1..] + rest;
      assert b == [b[0]] + b[1..];
      ValueAppend([b[0]], b[1..]);
      assert Value([b[0]]) == bit by {
        assert [b[0]][..0] == [];
      }
      Distribute(2 * value, bit, Pow2(|b| - 1));
      Reassociate(value, 2, Pow2(|b| - 1));
    }
  }

  lemma ParseDelta(delta: nat, rest: Bits)
    ensures ParseUnary(DeltaCode(delta) + rest).0 == delta / REMAINDERS
    ensures ParseBits(ParseUnary(DeltaCode(delta) + rest).1, GOLOMB_P, 0) == (delta % REMAINDERS, rest)
  {
    hide ParseUnary, ParseBits, Unary, BitsOf;
    var low := BitsOf(delta % REMAINDERS, GOLOMB_P);
    Regroup(Unary(delta / REMAINDERS), low, rest);
    ParseUnaryOfUnary(delta / REMAINDERS, low + rest);
    ParseBitsOfBits(low, rest, 0);
    RemaindersArePow2();
    ValueOfBits(delta % REMAINDERS, GOLOMB_P);
  }

  lemma RemaindersArePow2()
    ensures Pow2(GOLOMB_P) == REMAINDERS
  {
    Pow2Adds(10, 9);
    assert Pow2(5) == 32 && Pow2(10) == 1024 && Pow2(9) == 512 by {
      Pow2Adds(5, 5);
      Pow2Adds(5, 4);
    }
  }

  lemma {:induction false} AscendingBound(values: seq<nat>, last: nat, x: nat)
    requires Ascending(values, last) && x in values
    ensures last <= x
    decreases |values|
  {
    if x != values[0] {
      assert x in values[1..];
      AscendingBound(values[1..], values[0], x);
    }
  }

  // Searching a code, whatever follows it, finds exactly the coded values.
  lemma {:induction false} SearchFindsExactly(values: seq<nat>, last: nat, padding: Bits, target: nat)
    requires Ascending(values, last)
    ensures Search(Code(values, last) + padding, |values|, last, target) <==> target in values
    decreases |values|
  {
    hide ParseUnary, ParseBits, DeltaCode;
    if values != [] {
      var delta := values[0] - last;
      var rest := Code(values[1..], values[0]);
      Regroup(DeltaCode(delta), rest, padding);
      ParseDelta(delta, rest + padding);
      DivMod(delta, REMAINDERS);
      SearchFindsExactly(values[1..], values[0], padding, target);
      if target in values && target != values[0] {
        assert target in values[1..];
        AscendingBound(values[1..], values[0], target);
      }
    }
  }

  // ---- bytes ----

  lemma Pow2Of8()
    ensures Pow2(8) == 256
  {
    Pow2Adds(4, 4);
  }

  lemma LastByte(bits: Bits)
    requires 0 < |bits| <= 8
    ensures BitString(Pack(bits), 8) == bits + Zeros(8 - |bits|) && Pack(bits)[0] < 256
  {
    var padded := bits + Zeros(8 - |bits|);
    Pow2Of8();
    BitsOfValue(padded);
    BitStringAppend([], Value(padded), 8);
    assert [] + [Value(padded)] == Pack(bits);
  }

  // Bytes that spell the bits and then fewer than eight zero bits.
  ghost predicate Spell(bytes: Bytes, bits: Bits, padding: Bits) {
    && BitString(bytes, 8) == bits + padding && |padding| < 8 && padding == Zeros(|padding|)
    && |bytes| == (|bits| + 7) / 8
    && forall i :: 0 <= i < |bytes| ==> bytes[i] < 256
  }

  lemma NoBytes()
    ensures Spell(Pack([]), [], [])
  {
  }

  lemma OneByte(bits: Bits)
    requires 0 < |bits| <= 8
    ensures Spell(Pack(bits), bits, Zeros(8 - |bits|))
  {
    hide BitString, Value, Pack, Zeros, Pow2;
    LastByte(bits);
    PackShort(bits);
    assert (|bits| + 7) / 8 == 1;
    var padding := Zeros(8 - |bits|);
    assert |padding| == 8 - |bits|;
  }

  lemma ByteMore(bits: Bits, padding: Bits)
    requires |bits| > 8 && Spell(Pack(bits[8..]), bits[8..], padding)
    ensures Spell(Pack(bits), bits, padding)
  {
    hide BitString, Value, BitsOf, Pack, Zeros, Pow2;
    var first, rest := Value(bits[..8]), Pack(bits[8..]);
    PackFirst(bits);
    Pow2Of8();
    BitsOfValue(bits[..8]);
    BitStringPrepend(first, rest, 8);
    Regroup(bits[..8], bits[8..], padding);
    assert bits == bits[..8] + bits[8..];
    assert BitString(Pack(bits), 8) == bits + padding;
  }

  // Packed bytes spell the bits again, followed by fewer than eight zero bits.
  lemma {:induction false} PackPadsWithZeros(bits: Bits) returns (padding: Bits)
    ensures Spell(Pack(bits), bits, padding)
    decreases |bits|
  {
    hide *;
    if bits == [] {
      padding := [];
      NoBytes();
    } else if |bits| <= 8 {
      padding := Zeros(8 - |bits|);
      OneByte(bits);
    } else {
      padding := PackPadsWithZeros(bits[8..]);
      ByteMore(bits, padding);
    }
  }

  lemma PackFirst(bits: Bits)
    requires |bits| > 8
    ensures Pack(bits) == [Value(bits[..8])] + Pack(bits[8..])
    ensures (|bits| + 7) / 8 == 1 + (|bits[8..]| + 7) / 8
  {
  }

  // ---- varints ----

  function LittleEndian(bytes: Bytes): nat {
    if bytes == [] then 0 else bytes[0] + 256 * LittleEndian(bytes[1..])
  }

  function ToLittleEndian(value: nat, width: nat): (b: Bytes)
    ensures |b| == width
  {
    if width == 0 then [] else [value % 256] + ToLittleEndian(value / 256, width - 1)
  }

  // Values of 2^64 and more cannot be encoded.
  function EncodeVarint(value: nat): Bytes
    requires value < 0x1_0000_0000_0000_0000
  {
    if value < 0xFD then [value]
    else if value <= 0xFFFF then [0xFD] + ToLittleEndian(value, 2)
    else if value <= 0xFFFF_FFFF then [0xFE] + ToLittleEndian(value, 4)
    else [0xFF] + ToLittleEndian(value, 8)
  }

  // The low byte comes first, after a mark that tells the width.
  lemma VarintInBytes()
    ensures EncodeVarint(0xFC) == [0xFC] && EncodeVarint(0xFD) == [0xFD, 0xFD, 0x00]
    ensures EncodeVarint(0x1234) == [0xFD, 0x34, 0x12] && EncodeVarint(0x1_0002) == [0xFE, 0x02, 0x00, 0x01, 0x00]
  {
  }

  function Take(data: Bytes, lo: nat, hi: nat): Bytes {
    if |data| <= lo then [] else if |data| <= hi then data[lo..] else if lo <= hi then data[lo..hi] else []
  }

  function Drop(data: Bytes, n: nat): Bytes {
    if |data| <= n then [] else data[n..]
  }

  function DecodeVarint(data: Bytes): (nat, Bytes)
    requires data != []
  {
    if data[0] < 0xFD then (data[0], data[1..])
    else if data[0] == 0xFD then (LittleEndian(Take(data, 1, 3)), Drop(data, 3))
    else if data[0] == 0xFE then (LittleEndian(Take(data, 1, 5)), Drop(data, 5))
    else (LittleEndian(Take(data, 1, 9)), Drop(data, 9))
  }

  lemma {:induction false} LittleEndianRoundTrip(value: nat, width: nat)
    requires value < Pow256(width)
    ensures LittleEndian(ToLittleEndian(value, width)) == value
  {
    if width > 0 {
      LittleEndianRoundTrip(value / 256, width - 1);
      assert ToLittleEndian(value, width)[1..] == ToLittleEndian(value / 256, width - 1);
    }
  }

  lemma VarintRoundTrip(value: nat, rest: Bytes)
    requires value < 0x1_0000_0000_0000_0000
    ensures EncodeVarint(value) + rest != []
    ensures DecodeVarint(EncodeVarint(value) + rest) == (value, rest)
  {
    hide LittleEndian, ToLittleEndian;
    assert Pow256(2) == 0x1_0000 && Pow256(4) == 0x1_0000_0000;
    assert Pow256(8) == 256 * (256 * (256 * (256 * Pow256(4))));
    var data := EncodeVarint(value) + rest;
    if value < 0xFD {
      assert data[1..] == rest;
    } else {
      var width := if value <= 0xFFFF then 2 else if value <= 0xFFFF_FFFF then 4 else 8;
      LittleEndianRoundTrip(value, width);
      assert data[1..width + 1] == ToLittleEndian(value, width);
      assert data[width + 1..] == rest;
      if rest == [] {
        assert data[1..] == ToLittleEndian(value, width);
      }
    }
  }

  // ---- the writer and the reader ----

  lemma {:induction false} BitAt(v: nat, width: nat, j: nat)
    requires j < width
    ensures BitsOf(v, width)[j] == (v / Pow2(width - 1 - j) % 2 == 1)
  {
    if j < width - 1 {
      BitAt(v / 2, width - 1, j);
      DivideTwice(v, 2, Pow2(width - 2 - j));
    }
  }

  lemma {:induction false} BitOfByte(data: Bytes, i: nat, j: nat)
    requires i < |data| && j < 8
    ensures |BitString(data, 8)| == 8 * |data|
    ensures BitString(data, 8)[8 * i + j] == BitsOf(data[i], 8)[j]
  {
    BitStringLength(data, 8);
    var front := data[..|data| - 1];
    BitStringLength(front, 8);
    if i < |data| - 1 {
      BitOfByte(front, i, j);
    }
  }

  // The `k` highest of the `count` low bits of a value.
  function HighBits(value: nat, count: nat, k: nat): seq<bool>
    requires k <= count
  {
    BitsOf(Quotient(value, Pow2(count - k)), k)
  }

  lemma NextBit(value: nat, count: nat, k: nat)
    requires k <= count
    ensures HighBits(value, count, k) ==
            if k == 0 then [] else HighBits(value, count, k - 1) + [value / Pow2(count - k) % 2 == 1]
    ensures HighBits(value, count, count) == BitsOf(value, count)
  {
    if k > 0 {
      DivideTwice(value, Pow2(count - k), 2);
    }
    assert value / Pow2(0) == value;
  }

  class BitWriter {
    var bits: Bits

    constructor ()
      ensures bits == []
    {
      bits := [];
    }

    method WriteUnary(quotient: nat)
      modifies this
      ensures bits == old(bits) + Unary(quotient)
    {
      for i := 0 to quotient
        invariant bits + Ones(quotient - i) == old(bits) + Ones(quotient)
      {
        Regroup(bits, [true], Ones(quotient - i - 1));
        bits := bits + [true];
      }
      Regroup(old(bits), Ones(quotient), [false]);
      assert bits == bits + Ones(0);
      bits := bits + [false];
    }

    // The `count` low bits of a value, highest first.
    method WriteBits(value: nat, count: nat)
      modifies this
      ensures bits == old(bits) + BitsOf(value, count)
    {
      hide BitsOf, Pow2;
      NextBit(value, count, 0);
      assert bits == bits + [];
      for k := 0 to count
        invariant bits == old(bits) + HighBits(value, count, k)
      {
        NextBit(value, count, k + 1);
        bits := bits + [value / Pow2(count - k - 1) % 2 == 1];
      }
    }

    method ToBytes() returns (bytes: Bytes)
      ensures bytes == Pack(bits)
    {
      hide *;
      bytes := [];
      var i := 0;
      PackFromStart(bits);
      while i < |bits|
        invariant 0 <= i && bytes + PackFrom(bits, i) == Pack(bits)
        decreases |bits| - i
      {
        var chunk := if |bits| <= i + 8 then bits[i..] else bits[i..i + 8];
        var byte := PackChunk(chunk);
        PackFromStep(bits, i, chunk);
        assert bytes + ([byte] + PackFrom(bits, i + 8)) == (bytes + [byte]) + PackFrom(bits, i + 8);
        bytes := bytes + [byte];
        i := i + 8;
      }
      PackFromEnd(bits, i);
    }
  }

  // What packing still has to write from position `i` on.
  function PackFrom(bits: Bits, i: nat): Bytes {
    if i <= |bits| then Pack(bits[i..]) else []
  }

  lemma PackFromStart(bits: Bits)
    ensures PackFrom(bits, 0) == Pack(bits)
  {
    assert bits[0..] == bits;
  }

  lemma PackFromEnd(bits: Bits, i: nat)
    requires i >= |bits|
    ensures PackFrom(bits, i) == []
  {
  }

  lemma PackFromStep(bits: Bits, i: nat, chunk: Bits)
    requires i < |bits| && chunk == if |bits| <= i + 8 then bits[i..] else bits[i..i + 8]
    ensures PackFrom(bits, i) == [Value(chunk + Zeros(8 - |chunk|))] + PackFrom(bits, i + 8)
  {
    hide Value, Pack, Zeros;
    PackNone();
    var rest := bits[i..];
    if |rest| > 8 {
      assert rest[8..] == bits[i + 8..] && rest[..8] == chunk;
      PackFirst(rest);
      PaddedFull(chunk);
    } else {
      PackShort(rest);
    }
  }

  lemma PackNone()
    ensures Pack([]) == []
  {
  }

  lemma PackShort(bits: Bits)
    requires 0 < |bits| <= 8
    ensures Pack(bits) == [Value(bits + Zeros(8 - |bits|))]
  {
  }

  lemma PaddedFull(chunk: Bits)
    requires |chunk| == 8
    ensures chunk + Zeros(8 - |chunk|) == chunk
  {
  }

  // One byte: the bits shifted in, then shifted up past the padding.
  method PackChunk(chunk: Bits) returns (byte: nat)
    requires |chunk| <= 8
    ensures byte == Value(chunk + Zeros(8 - |chunk|))
  {
    byte := 0;
    for k := 0 to |chunk|
      invariant byte == Value(chunk[..k])
    {
      assert chunk[..k + 1][..k] == chunk[..k];
      byte := 2 * byte + (if chunk[k] then 1 else 0);
    }
    assert chunk[..|chunk|] == chunk;
    ValueAppend(chunk, Zeros(8 - |chunk|));
    ValueOfZeros(8 - |chunk|);
    byte := byte * Pow2(8 - |chunk|);
  }

  class BitReader {
    const data: Bytes
    var pos: nat

    constructor (bytes: Bytes)
      ensures data == bytes && pos == 0
      ensures Valid() && Rest() == BitString(bytes, 8)
    {
      data := bytes;
      pos := 0;
      BitStringLength(bytes, 8);
    }

    ghost predicate Valid()
      reads this
    {
      pos <= |BitString(data, 8)|
    }

    // The bits not read yet.
    ghost function Rest(): Bits
      reads this
      requires Valid()
    {
      BitString(data, 8)[pos..]
    }

    method ReadBit() returns (bit: nat)
      requires Valid()
      modifies this
      ensures Valid()
      ensures if old(Rest()) == [] then bit == 0 && Rest() == []
              else bit == (if old(Rest())[0] then 1 else 0) && Rest() == old(Rest())[1..]
    {
      BitStringLength(data, 8);
      if pos >= |data| * 8 {
        return 0;
      }
      BitOfByte(data, pos / 8, pos % 8);
      BitAt(data[pos / 8], 8, pos % 8);
      bit := data[pos / 8] / Pow2(7 - pos % 8) % 2;
      pos := pos + 1;
    }

    method ReadUnary() returns (quotient: nat)
      requires Valid()
      modifies this
      ensures Valid()
      ensures (quotient, Rest()) == ParseUnary(old(Rest()))
    {
      quotient := 0;
      ghost var start := Rest();
      var bit := ReadBit();
      while bit == 1
        invariant Valid() && (bit == 0 || bit == 1)
        invariant bit == 1 ==>
                    ParseUnary(start) == (quotient + 1 + ParseUnary(Rest()).0, ParseUnary(Rest()).1)
        invariant bit == 0 ==> ParseUnary(start) == (quotient, Rest())
        decreases bit, |Rest()|
      {
        quotient := quotient + 1;
        bit := ReadBit();
      }
    }

    method ReadBits(count: nat) returns (value: nat)
      requires Valid()
      modifies this
      ensures Valid()
      ensures (value, Rest()) == ParseBits(old(Rest()), count, 0)
    {
      value := 0;
      ghost var start := Rest();
      for i := 0 to count
        invariant Valid()
        invariant ParseBits(Rest(), count - i, value) == ParseBits(start, count, 0)
      {
        var bit := ReadBit();
        value := 2 * value + bit;
      }
    }
  }

  // ---- filters ----

  type Element = seq<nat>

  // The keyed hash of an element, as the number its digest spells.
  type Digest = Element -> nat

  function Hashed(digest: Digest, e: Element, modulus: nat): nat
    requires modulus > 0
  {
    digest(e) % modulus
  }

  // The range hash is the digest less a whole number of ranges.
  lemma HashedExactly(digest: Digest, e: Element, modulus: nat, value: nat)
    requires modulus > 0
    ensures Hashed(digest, e, modulus) == value <==>
            value < modulus && exists q: nat :: digest(e) == q * modulus + value
  {
    DivMod(digest(e), modulus);
    if q: nat :| value < modulus && digest(e) == q * modulus + value {
      RemainderIs(digest(e), modulus, q, value);
    }
  }

  // `values` are the sorted range hashes of a set, one per element.
  ghost predicate HashesOf(values: seq<nat>, unique: set<Element>, digest: Digest) {
    && |values| == |unique|
    && Ascending(values, 0)
    && (unique != {} ==> forall x :: x in values <==>
        exists e :: e in unique && Hashed(digest, e, |unique| * FILTER_M) == x)
  }

  // The filter of a set that has these hashes.
  function FilterBytes(values: seq<nat>): Bytes
    requires Ascending(values, 0) && |values| < 0x1_0000_0000_0000_0000
  {
    EncodeVarint(|values|) + (if values == [] then [] else Pack(Code(values, 0)))
  }

  function Match(filter: Bytes, digest: Digest, target: Element): bool
    requires filter != []
  {
    var (n, body) := DecodeVarint(filter);
    n != 0 && Search(BitString(body, 8), n, 0, Hashed(digest, target, n * FILTER_M))
  }

  // The bytes of a filter of the set.
  ghost predicate IsFilterOf(filter: Bytes, unique: set<Element>, digest: Digest) {
    exists values: seq<nat> ::
      HashesOf(values, unique, digest) && |values| < 0x1_0000_0000_0000_0000 && filter == FilterBytes(values)
  }

  // A filter matches a target exactly when the target's range hash is among the hashes of
  // the set: no false negatives, and false positives only by collision.
  lemma MatchIsHashMembership(filter: Bytes, unique: set<Element>, digest: Digest, target: Element)
    requires IsFilterOf(filter, unique, digest)
    ensures filter != []
    ensures Match(filter, digest, target) <==>
            exists e :: e in unique && Hashed(digest, e, |unique| * FILTER_M) ==
                   Hashed(digest, target, |unique| * FILTER_M)
    ensures target in unique ==> Match(filter, digest, target)
  {
    var values: seq<nat> :|
      HashesOf(values, unique, digest) && |values| < 0x1_0000_0000_0000_0000 && filter == FilterBytes(values);
    hide EncodeVarint, DecodeVarint, Pack, Code, Search, BitString;
    var body := if values == [] then [] else Pack(Code(values, 0));
    VarintRoundTrip(|values|, body);
    if values != [] {
      var padding := PackPadsWithZeros(Code(values, 0));
      SearchFindsExactly(values, 0, padding, Hashed(digest, target, |unique| * FILTER_M));
    }
  }

  // ---- size ----

  lemma DeltaCodeLength(delta: nat)
    ensures |DeltaCode(delta)| == delta / REMAINDERS + 20
  {
  }

  lemma {:induction false} CodeLength(values: seq<nat>, last: nat, top: nat)
    requires Ascending(values, last) && last <= top && forall x :: x in values ==> x <= top
    ensures |Code(values, last)| <= 20 * |values| + (top - last) / REMAINDERS
    decreases |values|
  {
    hide DeltaCode;
    if values != [] {
      assert values[0] in values && forall x :: x in values[1..] ==> x in values;
      DeltaCodeLength(values[0] - last);
      CodeLength(values[1..], values[0], top);
      assert (values[0] - last) / REMAINDERS + (top - values[0]) / REMAINDERS <= (top - last) / REMAINDERS;
    }
  }

  // The coded body stays under 21.5 bits per element, plus the padding of its last byte.
  lemma BodyIsSmall(values: seq<nat>, unique: set<Element>, digest: Digest)
    requires HashesOf(values, unique, digest) && unique != {}
    ensures 2 * |Code(values, 0)| < 43 * |unique|
    ensures 8 * |Pack(Code(values, 0))| <= |Code(values, 0)| + 7
  {
    var n := |unique|;
    forall x | x in values
      ensures x <= n * FILTER_M
    {
      var e :| e in unique && Hashed(digest, e, n * FILTER_M) == x;
    }
    CodeLength(values, 0, n * FILTER_M);
    var _ := PackPadsWithZeros(Code(values, 0));
  }

  // ---- building and matching ----

  lemma {:induction false} SortedIsAscending(values: seq<nat>, last: nat)
    requires Sorted(values) && (values != [] ==> last <= values[0])
    ensures Ascending(values, last)
    decreases |values|
  {
    if values != [] {
      SortedIsAscending(values[1..], values[0]);
    }
  }

  method HashAndSort(unique: set<Element>, digest: Digest) returns (values: seq<nat>)
    ensures HashesOf(values, unique, digest)
  {
    var field := |unique| * FILTER_M;
    var sorted: seq<int> := [];
    var todo := unique;
    while todo != {}
      invariant todo <= unique && |sorted| + |todo| == |unique| && Sorted(sorted)
      invariant unique != {} ==> forall x :: x in sorted <==>
                  exists e :: e in unique - todo && Hashed(digest, e, field) == x
      decreases |todo|
    {
      var e :| e in todo;
      var x := Hashed(digest, e, field);
      InsertKeepsOrder(sorted, x);
      InsertKeepsElements(sorted, x);
      InsertedMembers(sorted, x);
      assert forall f :: f in unique - (todo - {e}) <==> f in unique - todo || f == e;
      sorted := Insert(sorted, x);
      todo := todo - {e};
    }
    assert forall i :: 0 <= i < |sorted| ==> sorted[i] in sorted;
    values := sorted;
    SortedIsAscending(values, 0);
    assert unique - todo == unique;
  }

  lemma InsertedMembers(values: seq<int>, x: int)
    ensures forall y :: y in Insert(values, x) <==> y in values || y == x
  {
    InsertKeepsElements(values, x);
    forall y
      ensures y in Insert(values, x) <==> y in values || y == x
    {
      assert y in Insert(values, x) <==> y in multiset(Insert(values, x));
      assert y in values <==> y in multiset(values);
    }
  }

  function SetOf(elements: seq<Element>): set<Element> {
    set e | e in elements
  }

  method BuildFilter(elements: seq<Element>, digest: Digest) returns (filter: Bytes)
    requires |elements| < 0x1_0000_0000_0000_0000
    ensures IsFilterOf(filter, SetOf(elements), digest) && filter != []
    ensures forall e :: e in elements ==> Match(filter, digest, e)
  {
    filter := FilterOf(elements, digest);
    forall e: Element ensures filter != [] && (e in SetOf(elements) ==> Match(filter, digest, e)) {
      MatchIsHashMembership(filter, SetOf(elements), digest, e);
    }
  }

  method FilterOf(elements: seq<Element>, digest: Digest) returns (filter: Bytes)
    requires |elements| < 0x1_0000_0000_0000_0000
    ensures IsFilterOf(filter, SetOf(elements), digest)
  {
    var unique := SetOf(elements);
    DistinctAreFewer(elements);
    var hashes := HashAndSort(unique, digest);
    assert |hashes| < 0x1_0000_0000_0000_0000;
    hide EncodeVarint, Code, Pack;
    if unique == {} {
      filter := EncodeVarint(0);
      assert filter == filter + [];
      assert filter == FilterBytes(hashes);
      return;
    }
    var body := WriteDeltas(hashes);
    filter := EncodeVarint(|unique|) + body;
    assert filter == FilterBytes(hashes);
  }

  // The body: each hash as its distance from the one before.
  method WriteDeltas(hashes: seq<nat>) returns (body: Bytes)
    requires Ascending(hashes, 0)
    ensures body == Pack(Code(hashes, 0))
  {
    hide Pack, DeltaCode, BitsOf, Unary;
    var writer := new BitWriter();
    var last := 0;
    for i := 0 to |hashes|
      invariant Ascending(hashes[i..], last)
      invariant writer.bits + Code(hashes[i..], last) == Code(hashes, 0)
    {
      var value := hashes[i];
      assert hashes[i..][1..] == hashes[i + 1..];
      var delta := value - last;
      ghost var before := writer.bits;
      Regroup(before, DeltaCode(delta), Code(hashes[i + 1..], value));
      last := value;
      writer.WriteUnary(delta / REMAINDERS);
      writer.WriteBits(delta % REMAINDERS, GOLOMB_P);
      WroteDelta(before, delta);
    }
    assert writer.bits + [] == writer.bits;
    body := writer.ToBytes();
  }

  lemma WroteDelta(before: Bits, delta: nat)
    ensures before + Unary(delta / REMAINDERS) + BitsOf(delta % REMAINDERS, GOLOMB_P) == before + DeltaCode(delta)
  {
    hide Unary, BitsOf;
    Regroup(before, Unary(delta / REMAINDERS), BitsOf(delta % REMAINDERS, GOLOMB_P));
  }

  lemma {:induction false} DistinctAreFewer(elements: seq<Element>)
    ensures |SetOf(elements)| <= |elements|
  {
    if elements != [] {
      var rest := elements[..|elements| - 1];
      DistinctAreFewer(rest);
      assert SetOf(elements) == SetOf(rest) + {elements[|elements| - 1]};
    }
  }

  method ReadDelta(reader: BitReader) returns (delta: nat)
    requires reader.Valid()
    modifies reader
    ensures reader.Valid()
    ensures var (quotient, rest) := ParseUnary(old(reader.Rest()));
            delta == quotient * REMAINDERS + ParseBits(rest, GOLOMB_P, 0).0 &&
              reader.Rest() == ParseBits(rest, GOLOMB_P, 0).1
  {
    hide ParseUnary, ParseBits, BitString;
    var quotient := reader.ReadUnary();
    var remainder := reader.ReadBits(GOLOMB_P);
    delta := quotient * REMAINDERS + remainder;
  }

  method FilterMatch(filter: Bytes, digest: Digest, target: Element) returns (found: bool)
    requires filter != []
    ensures found == Match(filter, digest, target)
  {
    hide ParseUnary, ParseBits, DecodeVarint, BitString, Hashed;
    var (n, body) := DecodeVarint(filter);
    if n == 0 {
      return false;
    }
    var targetHash := Hashed(digest, target, n * FILTER_M);
    var reader := new BitReader(body);
    ghost var start := reader.Rest();
    var last: nat := 0;
    for i := 0 to n
      invariant reader.Valid()
      invariant Search(reader.Rest(), n - i, last, targetHash) == Search(start, n, 0, targetHash)
    {
      var delta := ReadDelta(reader);
      last := last + delta;
      if last == targetHash {
        return true;
      }
      if last > targetHash {
        return false;
      }
    }
    return false;
  }
}
