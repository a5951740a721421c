// Big-endian bit strings and their regrouping into symbols of another width (convertbits in
// netcoin/crypto.py).
module BitStrings {
  import opened Wrappers
  import opened Arithmetic

  type Bits = seq<bool>

  function Pow2(n: nat): (p: nat)
    ensures p >= 1
  {
    if n == 0 then 1 else 2 * Pow2(n - 1)
  }

  // The value of a bit string, first bit most significant.
  function Value(b: Bits): nat {
    if b == [] then 0 else 2 * Value(b[..|b| - 1]) + (if b[|b| - 1] then 1 else 0)
  }

  // The `width` low bits of a number.
  function BitsOf(v: nat, width: nat): (b: Bits)
    ensures |b| == width
  {
    if width == 0 then [] else BitsOf(v / 2, width - 1) + [v % 2 == 1]
  }

  function Zeros(n: nat): (b: Bits)
    ensures |b| == n
  {
    seq(n, _ => false)
  }

  // The concatenated bits of symbols of one width.
  function BitString(symbols: seq<nat>, width: nat): Bits {
    if symbols == [] then []
    else BitString(symbols[..|symbols| - 1], width) + BitsOf(symbols[|symbols| - 1], width)
  }

  ghost predicate InRange(symbols: seq<nat>, width: nat) {
    forall i :: 0 <= i < |symbols| ==> symbols[i] < Pow2(width)
  }

  lemma Regroup(a: Bits, b: Bits, c: Bits)
    ensures (a + b) + c == a + (b + c)
  {
  }

  // ---- values and bits ----

  lemma {:induction false} ValueOfBits(v: nat, width: nat)
    requires v < Pow2(width)
    ensures Value(BitsOf(v, width)) == v
  {
    if width > 0 {
      ValueOfBits(v / 2, width - 1);
      assert BitsOf(v, width)[..width - 1] == BitsOf(v / 2, width - 1);
    }
  }

  lemma {:induction false} BitsOfValue(b: Bits)
    ensures Value(b) < Pow2(|b|) && BitsOf(Value(b), |b|) == b
  {
    if b != [] {
      BitsOfValue(b[..|b| - 1]);
      assert b == b[..|b| - 1] + [b[|b| - 1]];
    }
  }

  lemma {:induction false} ValueAppend(a: Bits, b: Bits)
    ensures Value(a + b) == Value(a) * Pow2(|b|) + Value(b)
    decreases |b|
  {
    if b == [] {
      assert a + b == a;
    } else {
      ValueAppend(a, b[..|b| - 1]);
      assert (a + b)[..|a + b| - 1] == a + b[..|b| - 1];
      Reassociate(Value(a), 2, Pow2(|b| - 1));
      Reassociate(2, Value(a), Pow2(|b| - 1));
    }
  }

  lemma {:induction false} ValueOfZeros(n: nat)
    ensures Value(Zeros(n)) == 0
  {
    if n > 0 {
      ValueOfZeros(n - 1);
      assert Zeros(n)[..n - 1] == Zeros(n - 1);
    }
  }

  lemma {:induction false} Pow2Adds(m: nat, n: nat)
    ensures Pow2(m + n) == Pow2(m) * Pow2(n)
  {
    if m > 0 {
      Pow2Adds(m - 1, n);
      assert 2 * (Pow2(m - 1) * Pow2(n)) == (2 * Pow2(m - 1)) * Pow2(n);
    }
  }

  // ---- bit strings determine their symbols ----

  lemma BitStringAppend(symbols: seq<nat>, next: nat, width: nat)
    ensures BitString(symbols + [next], width) == BitString(symbols, width) + BitsOf(next, width)
  {
    assert (symbols + [next])[..|symbols|] == symbols;
  }

  lemma {:induction false} BitStringLength(symbols: seq<nat>, width: nat)
    ensures |BitString(symbols, width)| == |symbols| * width
  {
    if symbols != [] {
      BitStringLength(symbols[..|symbols| - 1], width);
      Distribute(|symbols| - 1, 1, width);
    }
  }

  lemma SameTails(a: Bits, x: Bits, b: Bits, y: Bits)
    requires a + x == b + y && |x| == |y|
    ensures a == b && x == y
  {
    assert |a| == |b|;
    assert a == (a + x)[..|a|] && b == (b + y)[..|b|];
    assert x == (a + x)[|a|..] && y == (b + y)[|b|..];
  }

  lemma {:induction false} BitStringIsInjective(a: seq<nat>, b: seq<nat>, width: nat)
    requires |a| == |b| && InRange(a, width) && InRange(b, width)
    requires BitString(a, width) == BitString(b, width)
    ensures a == b
  {
    if a != [] {
      var a', b' := a[..|a| - 1], b[..|b| - 1];
      SameLastSymbol(a, b, width);
      BitStringIsInjective(a', b', width);
      assert a == a' + [a[|a| - 1]] && b == b' + [b[|b| - 1]];
    }
  }

  lemma SameLastSymbol(a: seq<nat>, b: seq<nat>, width: nat)
    requires |a| == |b| > 0 && a[|a| - 1] < Pow2(width) && b[|b| - 1] < Pow2(width)
    requires BitString(a, width) == BitString(b, width)
    ensures BitString(a[..|a| - 1], width) == BitString(b[..|b| - 1], width)
    ensures a[|a| - 1] == b[|b| - 1]
  {
    var x, y := a[|a| - 1], b[|b| - 1];
    SameTails(BitString(a[..|a| - 1], width), BitsOf(x, width), BitString(b[..|b| - 1], width), BitsOf(y, width));
    ValueOfBits(x, width);
    ValueOfBits(y, width);
  }

  // `symbols` are the whole groups of `width` bits at the front of `bits`, `rest` what is left.
  ghost predicate Splits(bits: Bits, symbols: seq<nat>, rest: Bits, width: nat) {
    && InRange(symbols, width) && |rest| < width
    && bits == BitString(symbols, width) + rest
  }

  lemma SplitIsUnique(bits: Bits, s1: seq<nat>, r1: Bits, s2: seq<nat>, r2: Bits, width: nat)
    requires Splits(bits, s1, r1, width) && Splits(bits, s2, r2, width)
    ensures s1 == s2 && r1 == r2
  {
    BitStringLength(s1, width);
    BitStringLength(s2, width);
    SameCount(|s1|, |r1|, |s2|, |r2|, width);
    SameTails(BitString(s1, width), r1, BitString(s2, width), r2);
    BitStringIsInjective(s1, s2, width);
  }

  lemma SameCount(n1: nat, r1: nat, n2: nat, r2: nat, width: nat)
    requires n1 * width + r1 == n2 * width + r2 && r1 < width && r2 < width
    ensures n1 == n2 && r1 == r2
  {
    Distribute(n2, 1, width);
    MulCancel(n1, n2 + 1, width);
    Distribute(n1, 1, width);
    MulCancel(n2, n1 + 1, width);
  }

  // The split of a bit string: take groups off the front.
  function Groups(bits: Bits, width: nat): seq<nat>
    requires width > 0
  {
    if |bits| < width then [] else [Value(bits[..width])] + Groups(bits[width..], width)
  }

  function Leftover(bits: Bits, width: nat): (rest: Bits)
    requires width > 0
    ensures |rest| < width
  {
    if |bits| < width then bits else Leftover(bits[width..], width)
  }

  lemma {:induction false} BitStringPrepend(first: nat, symbols: seq<nat>, width: nat)
    ensures BitString([first] + symbols, width) == BitsOf(first, width) + BitString(symbols, width)
  {
    hide BitsOf;
    if symbols == [] {
      assert [first] + symbols == [] + [first];
      BitStringAppend([], first, width);
    } else {
      hide BitString;
      var front, last := symbols[..|symbols| - 1], symbols[|symbols| - 1];
      BitStringPrepend(first, front, width);
      assert symbols == front + [last];
      assert [first] + symbols == ([first] + front) + [last];
      BitStringAppend([first] + front, last, width);
      BitStringAppend(front, last, width);
      Regroup(BitsOf(first, width), BitString(front, width), BitsOf(last, width));
    }
  }

  lemma {:induction false} GroupsSplit(bits: Bits, width: nat)
    requires width > 0
    ensures Splits(bits, Groups(bits, width), Leftover(bits, width), width)
  {
    if |bits| >= width {
      GroupsSplit(bits[width..], width);
      hide Value, Splits;
      PrependGroup(bits[..width], bits[width..], Groups(bits[width..], width), Leftover(bits, width), width);
      assert bits == bits[..width] + bits[width..];
    }
  }

  lemma PrependGroup(first: Bits, bits: Bits, others: seq<nat>, rest: Bits, width: nat)
    requires |first| == width && Splits(bits, others, rest, width)
    ensures Splits(first + bits, [Value(first)] + others, rest, width)
  {
    hide Value, BitsOf, BitString;
    BitsOfValue(first);
    BitStringPrepend(Value(first), others, width);
    Regroup(first, BitString(others, width), rest);
  }

  // ---- convertbits ----

  datatype ConvertError = ValueOutOfRange | InvalidPadding

  // The specification of convertbits: regroup the bit string; what is left over is padded
  // with zero bits, or has to be fewer than one input symbol of zero bits.
  function Convert(data: seq<nat>, frombits: nat, tobits: nat, pad: bool): Result<seq<nat>, ConvertError>
    requires frombits > 0 && tobits > 0
  {
    var bits := BitString(data, frombits);
    var rest := Leftover(bits, tobits);
    if exists i :: 0 <= i < |data| && data[i] >= Pow2(frombits) then Err(ValueOutOfRange)
    else if pad then
      Ok(Groups(bits, tobits) + (if rest == [] then [] else [Value(rest + Zeros(tobits - |rest|))]))
    else if |rest| >= frombits || Value(rest) != 0 then Err(InvalidPadding)
    else Ok(Groups(bits, tobits))
  }

  // Regrouping without padding uses all bits but fewer than one input symbol of them.
  lemma ConvertedLength(data: seq<nat>, frombits: nat, tobits: nat)
    requires frombits > 0 && tobits > 0 && Convert(data, frombits, tobits, false).Ok?
    ensures 0 <= |data| * frombits - |Convert(data, frombits, tobits, false).value| * tobits < frombits
  {
    hide Value, Groups, Leftover, BitString;
    var bits := BitString(data, frombits);
    GroupsSplit(bits, tobits);
    BitStringLength(data, frombits);
    BitStringLength(Groups(bits, tobits), tobits);
  }

  // The accumulator keeps the pending bits through the mask and the shift of one more symbol.
  lemma AccumulatorStep(acc: nat, pending: Bits, v: nat, frombits: nat, tobits: nat)
    requires frombits > 0 && |pending| < tobits && v < Pow2(frombits)
    requires acc % Pow2(|pending|) == Value(pending)
    ensures (acc * Pow2(frombits) + v) % Pow2(frombits + tobits - 1) % Pow2(|pending| + frombits) ==
            Value(pending + BitsOf(v, frombits))
  {
    hide Pow2, Value, BitsOf;
    ValueAppend(pending, BitsOf(v, frombits));
    ValueOfBits(v, frombits);
    Pow2Adds(|pending|, frombits);
    Pow2Adds(|pending| + frombits, tobits - 1 - |pending|);
    assert |pending| + frombits + (tobits - 1 - |pending|) == frombits + tobits - 1;
    ShiftUnderMask(acc, Pow2(|pending|), Pow2(frombits), Pow2(tobits - 1 - |pending|), v,
                   Pow2(|pending| + frombits), Pow2(frombits + tobits - 1));
  }

  // Taking `tobits` off the front of the pending bits.
  lemma TakeGroup(acc: nat, pending: Bits, tobits: nat)
    requires acc % Pow2(|pending|) == Value(pending) && |pending| >= tobits
    ensures var bits := |pending| - tobits;
            && acc / Pow2(bits) % Pow2(tobits) == Value(pending[..tobits])
            && acc % Pow2(bits) == Value(pending[tobits..])
  {
    var head, tail := pending[..tobits], pending[tobits..];
    assert pending == head + tail;
    ValueAppend(head, tail);
    BitsOfValue(head);
    BitsOfValue(tail);
    Pow2Adds(tobits, |tail|);
    SplitRemainder(acc, Pow2(tobits), Pow2(|tail|), Value(head), Value(tail));
  }

  lemma NoBits(frombits: nat, tobits: nat)
    requires tobits > 0
    ensures Splits(BitString([], frombits), [], [], tobits) && Value([]) == 0
  {
  }

  method ConvertBits(data: seq<nat>, frombits: nat, tobits: nat, pad: bool) returns (r: Result<seq<nat>, ConvertError>)
    requires frombits > 0 && tobits > 0
    ensures r == Convert(data, frombits, tobits, pad)
  {
    hide Value, BitsOf, Groups, Leftover, BitString, Splits;
    var ok, acc, bits, result, pending := ScanSymbols(data, frombits, tobits);
    if !ok {
      return Err(ValueOutOfRange);
    }
    ghost var all := BitString(data, frombits);
    GroupsSplit(all, tobits);
    SplitIsUnique(all, result, pending, Groups(all, tobits), Leftover(all, tobits), tobits);
    PaddedValue(acc, pending, tobits);
    assert result + [] == result;
    if pad {
      if bits > 0 {
        result := result + [acc * Pow2(tobits - bits) % Pow2(tobits)];
      }
    } else if bits >= frombits || acc * Pow2(tobits - bits) % Pow2(tobits) != 0 {
      return Err(InvalidPadding);
    }
    return Ok(result);
  }

  // The outer loop: shift each symbol into the accumulator and drain whole groups.
  method ScanSymbols(data: seq<nat>, frombits: nat, tobits: nat)
    returns (ok: bool, acc: nat, bits: nat, result: seq<nat>, ghost pending: Bits)
    requires frombits > 0 && tobits > 0
    ensures ok <==> forall i :: 0 <= i < |data| ==> data[i] < Pow2(frombits)
    ensures ok ==> Splits(BitString(data, frombits), result, pending, tobits)
    ensures ok ==> bits == |pending| < tobits && acc % Pow2(bits) == Value(pending)
  {
    hide Value, BitsOf, BitString;
    NoBits(frombits, tobits);
    ok, acc, bits, result, pending := true, 0, 0, [], [];
    for i := 0 to |data|
      invariant ok && forall k :: 0 <= k < i ==> data[k] < Pow2(frombits)
      invariant Splits(BitString(data[..i], frombits), result, pending, tobits)
      invariant bits == |pending| && acc % Pow2(bits) == Value(pending)
    {
      var value := data[i];
      if value >= Pow2(frombits) {
        ok := false;
        return;
      }
      AccumulatorStep(acc, pending, value, frombits, tobits);
      assert data[..i + 1] == data[..i] + [value];
      BitStringAppend(data[..i], value, frombits);
      Regroup(BitString(result, tobits), pending, BitsOf(value, frombits));
      acc := (acc * Pow2(frombits) + value) % Pow2(frombits + tobits - 1);
      bits := bits + frombits;
      pending := pending + BitsOf(value, frombits);
      acc, bits, result, pending := DrainGroups(acc, bits, result, pending, tobits, BitString(data[..i + 1], frombits));
    }
    assert data[..|data|] == data;
  }

  // The inner loop: emit whole groups while there are enough pending bits.
  method DrainGroups(acc: nat, bits0: nat, symbols: seq<nat>, ghost pending0: Bits, tobits: nat, ghost all: Bits)
    returns (acc': nat, bits: nat, result: seq<nat>, ghost pending: Bits)
    requires tobits > 0 && bits0 == |pending0| && acc % Pow2(bits0) == Value(pending0)
    requires InRange(symbols, tobits) && all == BitString(symbols, tobits) + pending0
    ensures Splits(all, result, pending, tobits)
    ensures acc' == acc && bits == |pending| && acc % Pow2(bits) == Value(pending)
  {
    hide Value, BitsOf, BitString;
    acc', bits, result, pending := acc, bits0, symbols, pending0;
    while bits >= tobits
      invariant acc' == acc && bits == |pending| && acc % Pow2(bits) == Value(pending)
      invariant InRange(result, tobits) && all == BitString(result, tobits) + pending
      decreases bits
    {
      TakeGroup(acc, pending, tobits);
      BitsOfValue(pending[..tobits]);
      BitStringAppend(result, Value(pending[..tobits]), tobits);
      assert pending == pending[..tobits] + pending[tobits..];
      Regroup(BitString(result, tobits), pending[..tobits], pending[tobits..]);
      bits := bits - tobits;
      result := result + [acc / Pow2(bits) % Pow2(tobits)];
      pending := pending[tobits..];
    }
  }

  // The padded last symbol, and that it is zero exactly when the pending bits are.
  lemma PaddedValue(acc: nat, pending: Bits, tobits: nat)
    requires |pending| < tobits && acc % Pow2(|pending|) == Value(pending)
    ensures acc * Pow2(tobits - |pending|) % Pow2(tobits) == Value(pending + Zeros(tobits - |pending|))
    ensures Value(pending + Zeros(tobits - |pending|)) == 0 <==> Value(pending) == 0
  {
    var n := tobits - |pending|;
    var p, f := Pow2(|pending|), Pow2(n);
    ValueAppend(pending, Zeros(n));
    ValueOfZeros(n);
    Pow2Adds(|pending|, n);
    ShiftRemainder(acc, p, f, 0);
    if Value(pending) > 0 {
      MulMonotone(1, Value(pending), f);
    }
  }

  // ---- round trip ----

  // Bytes regrouped into five-bit symbols with padding come back unchanged.
  lemma RegroupRoundTrip(data: seq<nat>)
    requires InRange(data, 8)
    ensures Convert(data, 8, 5, true).Ok?
    ensures InRange(Convert(data, 8, 5, true).value, 5)
    ensures 5 * |Convert(data, 8, 5, true).value| < 8 * |data| + 5
    ensures Convert(Convert(data, 8, 5, true).value, 5, 8, false) == Ok(data)
  {
    hide Groups, Leftover, BitString, Value;
    InRangeIsAccepted(data, 8);
    var bits := BitString(data, 8);
    var symbols := Convert(data, 8, 5, true).value;
    var padding := Padding(bits);
    PaddedSymbols(bits);
    InRangeIsAccepted(symbols, 5);
    BitStringLength(data, 8);
    BitStringLength(symbols, 5);
    var all := bits + padding;
    assert Splits(all, data, padding, 8);
    GroupsSplit(all, 8);
    SplitIsUnique(all, data, padding, Groups(all, 8), Leftover(all, 8), 8);
    ValueOfZeros(|padding|);
  }

  // The zero bits that fill up the last five-bit symbol.
  function Padding(bits: Bits): (z: Bits)
    ensures |z| < 5 && z == Zeros(|z|)
  {
    var rest := Leftover(bits, 5);
    if rest == [] then [] else Zeros(5 - |rest|)
  }

  lemma PaddedSymbols(bits: Bits)
    ensures var rest := Leftover(bits, 5);
            var symbols := Groups(bits, 5) + (if rest == [] then [] else [Value(rest + Zeros(5 - |rest|))]);
            InRange(symbols, 5) && BitString(symbols, 5) == bits + Padding(bits)
  {
    hide BitsOf, BitString, Value;
    GroupsSplit(bits, 5);
    var groups, rest := Groups(bits, 5), Leftover(bits, 5);
    if rest != [] {
      var last := rest + Zeros(5 - |rest|);
      BitsOfValue(last);
      BitStringAppend(groups, Value(last), 5);
      Regroup(BitString(groups, 5), rest, Zeros(5 - |rest|));
      assert Pow2(5) == 32 && |last| == 5;
    } else {
      assert groups + [] == groups;
    }
  }

  lemma InRangeIsAccepted(symbols: seq<nat>, width: nat)
    requires InRange(symbols, width)
    ensures !exists i :: 0 <= i < |symbols| && symbols[i] >= Pow2(width)
  {
  }
}
