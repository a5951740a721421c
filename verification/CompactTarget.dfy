// Compact proof-of-work targets, block work and the retarget rule
// (netcoin/block.py and Blockchain.expected_bits_for_height in netcoin/chain.py).
module CompactTarget {
  import opened Wrappers
  import opened Params
  import opened Arithmetic

  datatype TargetError = NegativeTarget | TargetNotPositive | TargetAboveLimit

  // bits >> 24, bits & 0x007fffff and bits & 0x00800000.
  function Exponent(bits: nat): nat {
    bits / 0x100_0000
  }

  function Mantissa(bits: nat): nat {
    bits % 0x80_0000
  }

  predicate NegativeBit(bits: nat) {
    bits / 0x80_0000 % 2 == 1
  }

  function CompactToTargetUnchecked(bits: nat): nat {
    if Exponent(bits) <= 3 then
      DivMod(Mantissa(bits), Pow256(3 - Exponent(bits)));
      Mantissa(bits) / Pow256(3 - Exponent(bits))
    else
      MulMonotone(0, Mantissa(bits), Pow256(Exponent(bits) - 3));
      Mantissa(bits) * Pow256(Exponent(bits) - 3)
  }

  // 0x7fffff * 256^29, the decoded POW_LIMIT_BITS (see PowLimitDecodes).
  const POW_LIMIT := 0x7fffff0000000000000000000000000000000000000000000000000000000000
  const TWO_256 := 0x10000000000000000000000000000000000000000000000000000000000000000

  function BitsToTarget(bits: nat): Result<nat, TargetError> {
    var target := CompactToTargetUnchecked(bits);
    if NegativeBit(bits) then Err(NegativeTarget)
    else if target <= 0 then Err(TargetNotPositive)
    else if target > POW_LIMIT then Err(TargetAboveLimit)
    else Ok(target)
  }

  // Length of the big-endian byte string without leading zero bytes.
  function ByteLength(target: nat): nat {
    if target == 0 then 0 else 1 + ByteLength(target / 256)
  }

  // The `count` leading bytes of `target`, padded on the right with zero bytes.
  function LeadingBytes(target: nat, count: nat): nat {
    var length := ByteLength(target);
    if length >= count then target / Pow256(length - count) else target * Pow256(count - length)
  }

  function TargetToBits(target: int): Result<nat, TargetError> {
    if target <= 0 then Err(TargetNotPositive)
    else
      var t: nat := Min(target, POW_LIMIT);
      if LeadingBytes(t, 1) >= 0x80 then
        // A zero byte goes in front, so that the sign bit stays clear.
        Ok((ByteLength(t) + 1) * 0x100_0000 + LeadingBytes(t, 2))
      else
        Ok(ByteLength(t) * 0x100_0000 + LeadingBytes(t, 3))
  }

  // Bits are an exponent, a sign and a mantissa: the target is the mantissa shifted by whole bytes,
  // and it is accepted when the sign is clear and it is positive and within the limit.
  lemma DecodesExactly(exponent: nat, sign: nat, mantissa: nat, target: nat)
    requires sign <= 1 && mantissa < 0x80_0000
    ensures BitsToTarget(exponent * 0x100_0000 + sign * 0x80_0000 + mantissa) == Ok(target) <==>
            && sign == 0 && 0 < target <= POW_LIMIT
            && target == if exponent >= 3 then mantissa * Pow256(exponent - 3) else mantissa / Pow256(3 - exponent)
  {
    var bits := exponent * 0x100_0000 + sign * 0x80_0000 + mantissa;
    assert Exponent(bits) == exponent && Mantissa(bits) == mantissa && (NegativeBit(bits) <==> sign == 1);
    assert Pow256(0) == 1;
    hide Exponent, Mantissa, NegativeBit, Pow256;
  }

  // ---- rounding and round trip ----

  lemma Pow256Adds(m: nat, n: nat)
    ensures Pow256(m + n) == Pow256(m) * Pow256(n)
  {
    if m > 0 {
      Pow256Adds(m - 1, n);
      assert 256 * (Pow256(m - 1) * Pow256(n)) == (256 * Pow256(m - 1)) * Pow256(n);
    }
  }

  lemma {:induction false} Pow256Monotone(m: nat, n: nat)
    requires m <= n
    ensures Pow256(m) <= Pow256(n)
    decreases n
  {
    if m < n {
      Pow256Monotone(m, n - 1);
    }
  }

  // A positive number with `length` bytes lies in [256^(length-1), 256^length).
  lemma {:induction false} ByteLengthBounds(target: nat)
    requires target > 0
    ensures ByteLength(target) >= 1
    ensures Pow256(ByteLength(target) - 1) <= target < Pow256(ByteLength(target))
  {
    if target >= 256 {
      ByteLengthBounds(target / 256);
      var p := Pow256(ByteLength(target / 256));
      assert target < 256 * p;
      assert Pow256(ByteLength(target) - 1) == 256 * Pow256(ByteLength(target / 256) - 1);
    } else {
      assert target / 256 == 0;
      assert Pow256(1) == 256 * Pow256(0) == 256;
    }
  }

  lemma {:induction false} ByteLengthIsUnique(target: nat, length: nat)
    requires length >= 1 && Pow256(length - 1) <= target < Pow256(length)
    ensures ByteLength(target) == length
  {
    ByteLengthBounds(target);
    var actual := ByteLength(target);
    if actual < length {
      Pow256Monotone(actual, length - 1);
    } else if actual > length {
      Pow256Monotone(length, actual - 1);
    }
  }

  // `length` bytes of which the leading `count` are kept: both ends of the byte range.
  lemma SplitRange(length: nat, count: nat)
    requires 1 <= count <= length
    ensures Pow256(count - 1) * Pow256(length - count) == Pow256(length - 1)
    ensures Pow256(count) * Pow256(length - count) == Pow256(length)
  {
    Pow256Adds(count - 1, length - count);
    Pow256Adds(count, length - count);
  }

  // The leading `count` bytes start with the same non-zero byte as the number itself.
  lemma LeadingBytesRange(target: nat, count: nat)
    requires target > 0 && count >= 1
    ensures Pow256(count - 1) <= LeadingBytes(target, count) < Pow256(count)
  {
    ByteLengthBounds(target);
    hide Pow256, ByteLength;
    var length := ByteLength(target);
    if length >= count {
      DividedRange(target, length, count);
    } else {
      PaddedRange(target, length, count);
    }
  }

  lemma DividedRange(target: nat, length: nat, count: nat)
    requires 1 <= count <= length && Pow256(length - 1) <= target < Pow256(length)
    ensures Pow256(count - 1) <= target / Pow256(length - count) < Pow256(count)
  {
    SplitRange(length, count);
    hide Pow256;
    DivideIntoRange(target, Pow256(length - count), Pow256(count - 1), Pow256(count));
  }

  lemma PaddedRange(target: nat, length: nat, count: nat)
    requires 1 <= length < count && Pow256(length - 1) <= target < Pow256(length)
    ensures Pow256(count - 1) <= target * Pow256(count - length) < Pow256(count)
  {
    SplitRange(count, length);
    hide Pow256;
    ScaleRange(target, Pow256(length - 1), Pow256(length), Pow256(count - length));
  }

  lemma ScaleRange(t: nat, lo: nat, hi: nat, p: nat)
    requires lo <= t < hi && p > 0
    ensures lo * p <= t * p < hi * p
  {
    MulMonotone(lo, t, p);
    MulMonotone(t + 1, hi, p);
    assert (t + 1) * p == t * p + p;
  }

  // What rounding down to the leading `count` bytes keeps of a target.
  function Truncated(target: nat, count: nat): nat {
    var length := ByteLength(target);
    if length >= count then
      DivMod(target, Pow256(length - count));
      target - target % Pow256(length - count)
    else target
  }

  lemma TruncatedIsLeadingBytes(target: nat, count: nat)
    requires count <= ByteLength(target)
    ensures Truncated(target, count) == LeadingBytes(target, count) * Pow256(ByteLength(target) - count)
  {
    DivMod(target, Pow256(ByteLength(target) - count));
  }

  // Decoding `exponent` and a mantissa made of `count` leading bytes rebuilds the truncation.
  lemma DecodeLeadingBytes(target: nat, count: nat, pad: nat)
    requires target > 0 && 1 <= count && count + pad == 3
    ensures var e, m := ByteLength(target) + pad, LeadingBytes(target, count);
            (if e <= 3 then m / Pow256(3 - e) else m * Pow256(e - 3)) == Truncated(target, count)
  {
    ByteLengthBounds(target);
    var length := ByteLength(target);
    if length < count {
      assert 3 - (length + pad) == count - length;
      var p := Pow256(count - length);
      assert target * p / p == target;
    } else if length == count {
      assert Pow256(0) == 1;
    } else {
      assert length + pad - 3 == length - count;
      TruncatedIsLeadingBytes(target, count);
    }
  }

  // Truncation never exceeds the target and loses less than one part in 2^15, when the kept
  // bytes are worth at least 2^15.
  lemma TruncationLoss(target: nat, count: nat)
    requires target > 0 && count >= 1 && LeadingBytes(target, count) >= 0x8000
    ensures Truncated(target, count) <= target
    ensures (target - Truncated(target, count)) * 0x8000 < target
  {
    var length := ByteLength(target);
    if length >= count {
      var p := Pow256(length - count);
      DivMod(target, p);
      MulMonotone(0x8000, target / p, p);
    }
  }

  // Truncating again changes nothing: same length, same leading bytes.
  lemma TruncationIsStable(target: nat, count: nat)
    requires target > 0 && count >= 1
    ensures Truncated(target, count) > 0
    ensures ByteLength(Truncated(target, count)) == ByteLength(target)
    ensures LeadingBytes(Truncated(target, count), count) == LeadingBytes(target, count)
  {
    ByteLengthBounds(target);
    LeadingBytesRange(target, count);
    var length := ByteLength(target);
    if length >= count {
      var p, m := Pow256(length - count), LeadingBytes(target, count);
      TruncatedIsLeadingBytes(target, count);
      SplitRange(length, count);
      MulMonotone(Pow256(count - 1), m, p);
      ByteLengthIsUnique(m * p, length);
      QuotientIs(m * p, p, m);
    }
  }

  // The first byte of the first two bytes is the first byte.
  lemma LeadingBytesNest(target: nat, count: nat)
    requires target > 0 && count >= 1
    ensures LeadingBytes(target, count + 1) / 256 == LeadingBytes(target, count)
  {
    ByteLengthBounds(target);
    var length := ByteLength(target);
    assert Pow256(1) == 256 * Pow256(0) == 256;
    if length >= count + 1 {
      Pow256Adds(length - count - 1, 1);
      DivideTwice(target, Pow256(length - count - 1), 256);
    } else {
      Pow256Adds(count - length, 1);
      assert target * (Pow256(count - length) * 256) == (target * Pow256(count - length)) * 256;
    }
  }

  // The field layout of a compact number.
  lemma Fields(exponent: nat, mantissa: nat)
    requires mantissa < 0x80_0000
    ensures var bits := exponent * 0x100_0000 + mantissa;
            Exponent(bits) == exponent && Mantissa(bits) == mantissa && !NegativeBit(bits)
  {
    var bits := exponent * 0x100_0000 + mantissa;
    assert bits == (2 * exponent) * 0x80_0000 + mantissa;
    assert bits / 0x80_0000 == 2 * exponent;
  }

  // How many leading bytes the encoder keeps.
  function KeptBytes(target: nat): nat {
    if LeadingBytes(target, 1) >= 0x80 then 2 else 3
  }

  // Encoding a target and decoding the bits never raises: it gives the target rounded down
  // to the encoder's leading bytes.
  lemma DecodeOfEncode(target: nat)
    requires 0 < target <= POW_LIMIT
    ensures TargetToBits(target).Ok?
    ensures BitsToTarget(TargetToBits(target).value) == Ok(Truncated(target, KeptBytes(target)))
    ensures LeadingBytes(target, KeptBytes(target)) >= 0x8000
  {
    var count := KeptBytes(target);
    KeptRange(target);
    hide KeptBytes, LeadingBytes, ByteLength, Pow256, Truncated, TargetToBits, BitsToTarget;
    EncodedFields(target);
    DecodeLeadingBytes(target, count, 3 - count);
    TruncationWithin(target);
    DecodeFields(ByteLength(target) + (3 - count), LeadingBytes(target, count), Truncated(target, count));
  }

  lemma TruncationWithin(target: nat)
    requires target > 0
    ensures 0 < Truncated(target, KeptBytes(target)) <= target
  {
    var count := KeptBytes(target);
    KeptRange(target);
    hide KeptBytes, LeadingBytes, Truncated;
    TruncationLoss(target, count);
    TruncationIsStable(target, count);
  }

  lemma DecodeFields(exponent: nat, mantissa: nat, target: nat)
    requires mantissa < 0x80_0000 && 0 < target <= POW_LIMIT
    requires target == if exponent <= 3 then mantissa / Pow256(3 - exponent) else mantissa * Pow256(exponent - 3)
    ensures BitsToTarget(exponent * 0x100_0000 + mantissa) == Ok(target)
  {
    Fields(exponent, mantissa);
    hide Exponent, Mantissa, NegativeBit, Pow256;
  }

  lemma EncodedFields(target: nat)
    requires 0 < target <= POW_LIMIT
    ensures var count := KeptBytes(target);
            TargetToBits(target) == Ok((ByteLength(target) + (3 - count)) * 0x100_0000 + LeadingBytes(target, count))
  {
    hide LeadingBytes, ByteLength;
  }

  // The kept bytes leave the sign bit clear and are worth at least 2^15.
  lemma KeptRange(target: nat)
    requires target > 0
    ensures 2 <= KeptBytes(target) <= 3
    ensures 0x8000 <= LeadingBytes(target, KeptBytes(target)) < 0x80_0000
  {
    LeadingBytesRange(target, 1);
    LeadingBytesRange(target, 2);
    LeadingBytesRange(target, 3);
    LeadingBytesNest(target, 1);
    LeadingBytesNest(target, 2);
    assert Pow256(0) == 1 && Pow256(1) == 256 && Pow256(2) == 0x1_0000 && Pow256(3) == 0x100_0000;
    hide LeadingBytes, ByteLength;
  }

  // The encoder's choice of bytes and its fields depend on the truncation alone.
  lemma EncodeOfTruncation(target: nat)
    requires 0 < target <= POW_LIMIT
    ensures 0 < Truncated(target, KeptBytes(target)) <= target
    ensures TargetToBits(Truncated(target, KeptBytes(target))) == TargetToBits(target)
  {
    var count := KeptBytes(target);
    var kept := Truncated(target, count);
    TruncationIsStable(target, count);
    LeadingBytesNest(target, 1);
    LeadingBytesNest(kept, 1);
    if count == 3 {
      LeadingBytesNest(target, 2);
      LeadingBytesNest(kept, 2);
    }
  }

  // `decoded` is `target` rounded down by less than one part in 2^15.
  predicate RoundsDown(decoded: nat, target: nat) {
    0 < decoded <= target && (target - decoded) * 0x8000 < target
  }

  lemma RoundTripWithinLimit(target: nat) returns (decoded: nat)
    requires 0 < target <= POW_LIMIT
    ensures TargetToBits(target).Ok? && BitsToTarget(TargetToBits(target).value) == Ok(decoded)
    ensures RoundsDown(decoded, target)
    ensures TargetToBits(decoded) == TargetToBits(target)
  {
    decoded := Truncated(target, KeptBytes(target));
    DecodeOfEncode(target);
    EncodeOfTruncation(target);
    TruncationLoss(target, KeptBytes(target));
  }

  lemma AboveLimitEncodesLimit(target: nat)
    requires target > POW_LIMIT
    ensures TargetToBits(target) == TargetToBits(POW_LIMIT)
  {
    hide LeadingBytes, ByteLength;
    assert Min(target, POW_LIMIT) == POW_LIMIT == Min(POW_LIMIT, POW_LIMIT);
  }

  // The whole round trip: for every positive target, decoding its encoding never raises,
  // never exceeds the target or the limit, loses less than one part in 2^15 of the clamped
  // target, and encodes to the same bits again.
  lemma TargetRoundTrip(target: nat)
    requires target > 0
    ensures TargetToBits(target).Ok?
    ensures BitsToTarget(TargetToBits(target).value).Ok?
    ensures var decoded := BitsToTarget(TargetToBits(target).value).value;
            && RoundsDown(decoded, Min(target, POW_LIMIT))
            && TargetToBits(decoded) == TargetToBits(target)
  {
    if target <= POW_LIMIT {
      var _ := RoundTripWithinLimit(target);
    } else {
      AboveLimitEncodesLimit(target);
      var _ := RoundTripWithinLimit(POW_LIMIT);
    }
  }

  lemma PowLimitDecodes()
    ensures POW_LIMIT == CompactToTargetUnchecked(POW_LIMIT_BITS)
    ensures TWO_256 == Pow256(32)
  {
    Fields(0x20, 0x7F_FFFF);
    assert Pow256(2) == 0x1_0000 && Pow256(3) == 0x100_0000 && Pow256(4) == 0x1_0000_0000;
    Pow256Adds(4, 4);
    Pow256Adds(8, 8);
    Pow256Adds(16, 8);
    Pow256Adds(24, 8);
    Pow256Adds(24, 4);
    assert Pow256(29) == 256 * Pow256(28);
  }

  // ---- work ----

  // 2^256 // (target + 1), for bits that decode.
  function BitsWork(bits: nat): (work: nat)
    requires BitsToTarget(bits).Ok?
  {
    TWO_256 / (BitsToTarget(bits).value + 1)
  }

  // Every acceptable target leaves some work to do.
  lemma WorkIsPositive(bits: nat)
    requires BitsToTarget(bits).Ok?
    ensures BitsWork(bits) >= 1
  {
    var d := BitsToTarget(bits).value + 1;
    MulMonotone(1, d, TWO_256 + 1);
    DivideIntoRange(TWO_256, d, 1, TWO_256 + 1);
  }

  // What work is: the number of hashes it takes on average to find one at or below the target.
  lemma WorkIsQuotient(bits: nat)
    requires BitsToTarget(bits).Ok?
    ensures var d := BitsToTarget(bits).value + 1;
            BitsWork(bits) * d <= Pow256(32) < (BitsWork(bits) + 1) * d
  {
    hide BitsToTarget, Pow256;
    PowLimitDecodes();
    var d := BitsToTarget(bits).value + 1;
    DivMod(TWO_256, d);
    assert (TWO_256 / d + 1) * d == TWO_256 / d * d + d;
  }

  // A lower target never has less work.
  lemma LowerTargetIsMoreWork(low: nat, high: nat)
    requires BitsToTarget(low).Ok? && BitsToTarget(high).Ok?
    requires BitsToTarget(low).value <= BitsToTarget(high).value
    ensures BitsWork(low) >= BitsWork(high)
  {
    WorkIsQuotient(low);
    WorkIsQuotient(high);
    hide BitsToTarget, BitsWork, Pow256;
    var d, e := BitsToTarget(low).value + 1, BitsToTarget(high).value + 1;
    MulMonotone(d, e, BitsWork(high));
    assert BitsWork(high) * d == d * BitsWork(high) && BitsWork(high) * e == e * BitsWork(high);
    MulCancel(BitsWork(high), BitsWork(low) + 1, d);
  }

  // ---- retarget ----

  function Clamp(x: int, lo: int, hi: int): int {
    if Min(x, hi) < lo then lo else Min(x, hi)
  }

  function ClampedTimespan(height: nat, first: int, last: int): (t: nat)
    ensures TargetTimespanAt(height) / 4 <= t <= TargetTimespanAt(height) * 4
  {
    Clamp(last - first, TargetTimespanAt(height) / 4, TargetTimespanAt(height) * 4)
  }

  // The new bits at a retarget height, from the previous bits and the timestamps of the
  // first and last block of the window.
  function RetargetBits(height: nat, bits: nat, first: int, last: int): Result<nat, TargetError> {
    var previous :- BitsToTarget(bits);
    TargetToBits(previous * ClampedTimespan(height, first, last) / TargetTimespanAt(height))
  }

  // With an old target of at least 4 a retarget never raises, whatever the timestamps, and
  // the new target is within a factor of four of the old one up to the encoder's rounding.
  lemma RetargetIsBounded(height: nat, bits: nat, first: int, last: int)
    requires BitsToTarget(bits).Ok? && BitsToTarget(bits).value >= 4
    ensures RetargetBits(height, bits, first, last).Ok?
    ensures BitsToTarget(RetargetBits(height, bits, first, last).value).Ok?
    ensures var previous := BitsToTarget(bits).value;
            var new_ := BitsToTarget(RetargetBits(height, bits, first, last).value).value;
            && new_ <= 4 * previous
            && new_ <= POW_LIMIT
            && new_ * 0x8000 > (previous / 4) * 0x7FFF
  {
    var previous := BitsToTarget(bits).value;
    assert previous <= POW_LIMIT;
    var scaled := RetargetScales(height, bits, first, last);
    hide RetargetBits, BitsToTarget, TargetToBits;
    TargetRoundTrip(scaled);
    RoundedWithinFour(BitsToTarget(TargetToBits(scaled).value).value, scaled, previous);
  }

  // The target that a retarget encodes, before rounding and clamping.
  lemma RetargetScales(height: nat, bits: nat, first: int, last: int) returns (scaled: nat)
    requires BitsToTarget(bits).Ok?
    ensures RetargetBits(height, bits, first, last) == TargetToBits(scaled)
    ensures var previous := BitsToTarget(bits).value;
            previous / 4 <= scaled <= 4 * previous
  {
    hide BitsToTarget, TargetToBits, ClampedTimespan;
    var previous := BitsToTarget(bits).value;
    var span, full := ClampedTimespan(height, first, last), TargetTimespanAt(height);
    assert full > 0 && full % 4 == 0 && full / 4 <= span <= full * 4;
    hide TargetTimespanAt;
    ScaledTarget(previous, span, full);
    scaled := previous * span / full;
  }

  lemma RoundedWithinFour(new_: nat, scaled: nat, previous: nat)
    requires 4 <= previous <= POW_LIMIT && previous / 4 <= scaled <= 4 * previous
    requires RoundsDown(new_, Min(scaled, POW_LIMIT))
    ensures new_ <= 4 * previous && new_ <= POW_LIMIT && new_ * 0x8000 > (previous / 4) * 0x7FFF
  {
  }

  lemma ScaledTarget(previous: nat, span: nat, full: nat)
    requires full > 0 && full % 4 == 0 && full / 4 <= span <= full * 4
    ensures previous / 4 <= previous * span / full <= 4 * previous
  {
    MulMonotone(span, 4 * full, previous);
    MulMonotone(full / 4, span, previous);
    QuarterOf(previous, full);
    assert (4 * previous + 1) * full == previous * (4 * full) + full;
    DivideIntoRange(previous * span, full, previous / 4, 4 * previous + 1);
  }

  lemma QuarterOf(previous: nat, full: nat)
    requires full % 4 == 0
    ensures previous / 4 * full <= full / 4 * previous
  {
    var quarter, p := full / 4, previous / 4;
    assert full == 4 * quarter;
    MulMonotone(4 * p, previous, quarter);
    assert p * (4 * quarter) == 4 * p * quarter;
  }

  // The span a retarget counts: the time the window took, kept within a factor of four of what
  // it should take.
  ghost predicate CountedSpan(height: nat, first: int, last: int, span: int) {
    var full := TargetTimespanAt(height);
    && full / 4 <= span <= 4 * full
    && (full / 4 <= last - first <= 4 * full ==> span == last - first)
    && (last - first < full / 4 ==> span == full / 4)
    && (last - first > 4 * full ==> span == 4 * full)
  }

  // What a retarget does to the target: scaled by counted span over intended span, rounded down
  // by the encoding, and never above the limit.
  lemma RetargetScalesExactly(height: nat, bits: nat, first: int, last: int, span: int)
    requires BitsToTarget(bits).Ok? && CountedSpan(height, first, last, span)
    requires RetargetBits(height, bits, first, last).Ok?
    ensures BitsToTarget(RetargetBits(height, bits, first, last).value).Ok?
    ensures var product := BitsToTarget(bits).value * span;
            && product >= TargetTimespanAt(height)
            && RoundsDown(BitsToTarget(RetargetBits(height, bits, first, last).value).value,
                          Min(product / TargetTimespanAt(height), POW_LIMIT))
  {
    assert span == ClampedTimespan(height, first, last);
    RetargetRaisesExactly(height, bits, first, last);
    var product := BitsToTarget(bits).value * span;
    ScalesToZeroExactly(product, TargetTimespanAt(height));
    hide BitsToTarget, TargetToBits, RoundsDown, ClampedTimespan, CountedSpan;
    TargetRoundTrip(product / TargetTimespanAt(height));
  }

  // Exactly when a retarget raises, so that no block can follow: the scaled target rounds
  // down to zero.
  lemma RetargetRaisesExactly(height: nat, bits: nat, first: int, last: int)
    requires BitsToTarget(bits).Ok?
    ensures RetargetBits(height, bits, first, last).Err? <==>
            BitsToTarget(bits).value * ClampedTimespan(height, first, last) < TargetTimespanAt(height)
  {
    var product := BitsToTarget(bits).value * ClampedTimespan(height, first, last);
    ScalesToZeroExactly(product, TargetTimespanAt(height));
    if product >= TargetTimespanAt(height) {
      TargetRoundTrip(product / TargetTimespanAt(height));
    }
  }

  lemma ScalesToZeroExactly(product: nat, full: nat)
    requires full > 0
    ensures product / full <= 0 <==> product < full
  {
    if product >= full {
      MulMonotone(1, full, product + 1);
      DivideIntoRange(product, full, 1, product + 1);
    } else {
      QuotientIs(product, full, 0);
    }
  }

  // It does happen: bits for target 1 after a quick window.
  lemma RetargetCanRaise()
    ensures BitsToTarget(0x0101_0000) == Ok(1)
    ensures RetargetBits(30, 0x0101_0000, 0, 0) == Err(TargetNotPositive)
  {
    assert Pow256(1) == 256 && Pow256(2) == 0x1_0000;
    hide BitsToTarget, CompactToTargetUnchecked, Pow256, RetargetBits;
    DecodesExactly(1, 0, 0x1_0000, 1);
    RetargetRaisesExactly(30, 0x0101_0000, 0, 0);
  }
}
