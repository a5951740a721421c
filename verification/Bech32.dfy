// Bech32 and Bech32m strings and witness addresses (netcoin/crypto.py; BIP 173 and BIP 350).
module Bech32 {

  type State = bv30

  const BECH32_CONST: State := 1
  const BECH32M_CONST: State := 0x2BC830A3

  datatype Spec = Bech32 | Bech32m {
    function Const(): State {
      if Bech32? then BECH32_CONST else BECH32M_CONST
    }
  }

  // ---- the checksum ----

  function Top(chk: State): State {
    chk >> 25
  }

  function Shifted(chk: State): State {
    (chk & 0x1FFFFFF) << 5
  }

  predicate HasBit(top: State, bit: State) {
    top & bit != 0
  }

  // The generator of one of the five top bits, when that bit is set.
  function Gate(generator: State, bit: State, top: State): State {
    if HasBit(top, bit) then generator else 0
  }

  function Feedback(top: State): State {
    Xor(Xor(Xor(Xor(Gate(0x3B6A57B2, 1, top), Gate(0x26508E6D, 2, top)),
                Gate(0x1EA119FA, 4, top)), Gate(0x3D4233DD, 8, top)), Gate(0x2A1462B3, 16, top))
  }

  function Mix(shifted: State, value: State, feedback: State): State {
    Xor(Xor(shifted, value), feedback)
  }

  function Step(chk: State, value: State): State {
    Mix(Shifted(chk), value, Feedback(Top(chk)))
  }

  // Feeding symbols, from any state.
  function Run(chk: State, values: seq<State>): State {
    if values == [] then chk else Step(Run(chk, values[..|values| - 1]), values[|values| - 1])
  }

  function Polymod(values: seq<State>): State {
    Run(1, values)
  }

  method ComputePolymod(values: seq<State>) returns (chk: State)
    ensures chk == Polymod(values)
  {
    hide Step;
    chk := 1;
    for k := 0 to |values|
      invariant chk == Run(1, values[..k])
    {
      assert values[..k + 1][..k] == values[..k];
      chk := PolymodStep(chk, values[k]);
    }
    assert values[..|values|] == values;
  }

  method PolymodStep(chk: State, value: State) returns (next: State)
    ensures next == Step(chk, value)
  {
    var top := chk >> 25;
    next := ((chk & 0x1FFFFFF) << 5) ^ value;
    ghost var s0 := next;
    var b0, b1, b2, b3, b4 := top & 1, (top >> 1) & 1, (top >> 2) & 1, (top >> 3) & 1, (top >> 4) & 1;
    TopBits(top);
    hide Xor, Gate, Shifted, Top;
    next := AddGenerator(next, b0, 0x3B6A57B2, 1, top);
    next := AddGenerator(next, b1, 0x26508E6D, 2, top);
    next := AddGenerator(next, b2, 0x1EA119FA, 4, top);
    next := AddGenerator(next, b3, 0x3D4233DD, 8, top);
    next := AddGenerator(next, b4, 0x2A1462B3, 16, top);
    XorOfFive(s0, Gate(0x3B6A57B2, 1, top), Gate(0x26508E6D, 2, top), Gate(0x1EA119FA, 4, top),
              Gate(0x3D4233DD, 8, top), Gate(0x2A1462B3, 16, top));
    StepParts(chk, value);
  }

  method AddGenerator(chk: State, flag: State, generator: State, ghost bit: State, ghost top: State)
    returns (next: State)
    requires flag != 0 <==> HasBit(top, bit)
    ensures next == Xor(chk, Gate(generator, bit, top))
  {
    XorWithZero(chk);
    next := chk;
    if flag != 0 {
      next := chk ^ generator;
    }
  }

  lemma StepParts(chk: State, value: State)
    ensures Step(chk, value) == Xor(((chk & 0x1FFFFFF) << 5) ^ value, Feedback(chk >> 25))
  {
  }

  lemma TopBits(top: State)
    ensures (top >> 1) & 1 == 0 <==> top & 2 == 0
    ensures (top >> 2) & 1 == 0 <==> top & 4 == 0
    ensures (top >> 3) & 1 == 0 <==> top & 8 == 0
    ensures (top >> 4) & 1 == 0 <==> top & 16 == 0
  {
  }

  lemma XorOfFive(s: State, a: State, b: State, c: State, d: State, e: State)
    ensures Xor(Xor(Xor(Xor(Xor(s, a), b), c), d), e) == Xor(s, Xor(Xor(Xor(Xor(a, b), c), d), e))
  {
    hide Xor;
    XorIsAssociative(s, a, b);
    XorIsAssociative(s, Xor(a, b), c);
    XorIsAssociative(s, Xor(Xor(a, b), c), d);
    XorIsAssociative(s, Xor(Xor(Xor(a, b), c), d), e);
  }

  lemma FeedbackIsLinear(a: State, b: State)
    ensures Feedback(Xor(a, b)) == Xor(Feedback(a), Feedback(b))
  {
    hide Xor, Gate;
    var g0, h0 := Gate(0x3B6A57B2, 1, a), Gate(0x3B6A57B2, 1, b);
    var g1, h1 := Gate(0x26508E6D, 2, a), Gate(0x26508E6D, 2, b);
    var g2, h2 := Gate(0x1EA119FA, 4, a), Gate(0x1EA119FA, 4, b);
    var g3, h3 := Gate(0x3D4233DD, 8, a), Gate(0x3D4233DD, 8, b);
    GateIsLinear(0x3B6A57B2, 1, a, b);
    GateIsLinear(0x26508E6D, 2, a, b);
    GateIsLinear(0x1EA119FA, 4, a, b);
    GateIsLinear(0x3D4233DD, 8, a, b);
    GateIsLinear(0x2A1462B3, 16, a, b);
    XorSwap(g0, h0, g1, h1);
    XorSwap(Xor(g0, g1), Xor(h0, h1), g2, h2);
    XorSwap(Xor(Xor(g0, g1), g2), Xor(Xor(h0, h1), h2), g3, h3);
    XorSwap(Xor(Xor(Xor(g0, g1), g2), g3), Xor(Xor(Xor(h0, h1), h2), h3), Gate(0x2A1462B3, 16, a),
            Gate(0x2A1462B3, 16, b));
  }

  predicate OneOfFive(bit: State) {
    bit == 1 || bit == 2 || bit == 4 || bit == 8 || bit == 16
  }

  lemma GateIsLinear(generator: State, bit: State, a: State, b: State)
    requires OneOfFive(bit)
    ensures Gate(generator, bit, Xor(a, b)) == Xor(Gate(generator, bit, a), Gate(generator, bit, b))
  {
    MaskedXor(a, b, bit);
    hide Xor, HasBit, OneOfFive;
    XorTwice(generator, generator);
    XorWithZero(generator);
    XorWithZero(0);
  }

  lemma MaskedXor(a: State, b: State, bit: State)
    requires OneOfFive(bit)
    ensures HasBit(Xor(a, b), bit) <==> HasBit(a, bit) != HasBit(b, bit)
  {
  }

  lemma ShiftIsLinear(a: State, b: State)
    ensures Shifted(Xor(a, b)) == Xor(Shifted(a), Shifted(b))
  {
  }

  lemma TopIsLinear(a: State, b: State)
    ensures Top(Xor(a, b)) == Xor(Top(a), Top(b))
  {
  }

  lemma XorIsAssociative(a: State, b: State, c: State)
    ensures Xor(Xor(a, b), c) == Xor(a, Xor(b, c))
  {
  }

  lemma XorIsCommutative(a: State, b: State)
    ensures Xor(a, b) == Xor(b, a)
  {
  }

  lemma XorSwap(a: State, b: State, u: State, v: State)
    ensures Xor(Xor(a, b), Xor(u, v)) == Xor(Xor(a, u), Xor(b, v))
  {
    hide Xor;
    XorIsAssociative(a, b, Xor(u, v));
    XorIsAssociative(b, u, v);
    XorIsCommutative(b, u);
    XorIsAssociative(u, b, v);
    XorIsAssociative(a, u, Xor(b, v));
  }

  lemma MixIsLinear(a: State, b: State, u: State, v: State, f: State, g: State)
    ensures Mix(Xor(a, b), Xor(u, v), Xor(f, g)) == Xor(Mix(a, u, f), Mix(b, v, g))
  {
    hide Xor;
    XorSwap(a, b, u, v);
    XorSwap(Xor(a, u), Xor(b, v), f, g);
  }

  function Xor(a: State, b: State): State {
    a ^ b
  }

  lemma XorTwice(a: State, b: State)
    ensures Xor(Xor(a, b), b) == a
    ensures Xor(0, b) == b && Xor(a, a) == 0
  {
  }

  lemma XorZero(a: State, b: State)
    ensures Xor(a, b) == 0 <==> a == b
  {
    hide Xor;
    XorTwice(a, b);
  }

  lemma StepIsLinear(a: State, b: State, u: State, v: State)
    ensures Step(Xor(a, b), Xor(u, v)) == Xor(Step(a, u), Step(b, v))
  {
    hide Feedback, Shifted, Top, Mix, Xor;
    ShiftIsLinear(a, b);
    TopIsLinear(a, b);
    FeedbackIsLinear(Top(a), Top(b));
    MixIsLinear(Shifted(a), Shifted(b), u, v, Feedback(Top(a)), Feedback(Top(b)));
  }

  function Xors(a: seq<State>, b: seq<State>): (c: seq<State>)
    requires |a| == |b|
    ensures |c| == |a|
  {
    seq(|a|, i requires 0 <= i < |a| => Xor(a[i], b[i]))
  }

  lemma XorsPrefix(a: seq<State>, b: seq<State>)
    requires |a| == |b| > 0
    ensures var n := |a| - 1;
            Xors(a, b)[..n] == Xors(a[..n], b[..n]) && Xors(a, b)[n] == Xor(a[n], b[n])
  {
  }

  // The checksum register is XOR-linear in its state and its input.
  lemma {:induction false} RunIsLinear(c: State, d: State, a: seq<State>, b: seq<State>)
    requires |a| == |b|
    ensures Run(Xor(c, d), Xors(a, b)) == Xor(Run(c, a), Run(d, b))
  {
    hide Step, Xors, Xor;
    if a != [] {
      var n := |a| - 1;
      RunIsLinear(c, d, a[..n], b[..n]);
      XorsPrefix(a, b);
      StepIsLinear(Run(c, a[..n]), Run(d, b[..n]), a[n], b[n]);
    }
  }

  lemma {:induction false} RunAppend(c: State, a: seq<State>, b: seq<State>)
    ensures Run(c, a + b) == Run(Run(c, a), b)
  {
    hide Step;
    if b == [] {
      assert a + b == a;
    } else {
      RunAppend(c, a, b[..|b| - 1]);
      assert (a + b)[..|a + b| - 1] == a + b[..|b| - 1];
    }
  }

  // A nonzero difference in the state is a difference afterwards.
  lemma StepKeepsDifference(c: State, d: State, v: State)
    requires c != d
    ensures Step(c, v) != Step(d, v)
  {
    hide Step, Xor;
    XorZero(c, d);
    OnlyZeroDiesOut(Xor(c, d));
    XorZero(v, v);
    StepIsLinear(c, d, v, v);
    XorZero(Step(c, v), Step(d, v));
  }

  lemma OnlyZeroDiesOut(c: State)
    ensures Step(c, 0) == 0 ==> c == 0
  {
  }

  lemma {:induction false} RunKeepsDifference(c: State, d: State, values: seq<State>)
    requires c != d
    ensures Run(c, values) != Run(d, values)
  {
    hide Step;
    if values != [] {
      var n := |values| - 1;
      RunKeepsDifference(c, d, values[..n]);
      StepKeepsDifference(Run(c, values[..n]), Run(d, values[..n]), values[n]);
    }
  }

  // Replacing one symbol always changes the checksum.
  lemma SubstitutionChangesPolymod(values: seq<State>, i: nat, v: State)
    requires i < |values| && v != values[i]
    ensures Polymod(values[i := v]) != Polymod(values)
  {
    hide Run;
    var front, back := values[..i], values[i + 1..];
    assert values == (front + [values[i]]) + back && values[i := v] == (front + [v]) + back;
    RunAppend(1, front + [values[i]], back);
    RunAppend(1, front + [v], back);
    RunAppend(1, front, [values[i]]);
    RunAppend(1, front, [v]);
    RunOne(Run(1, front), v);
    RunOne(Run(1, front), values[i]);
    SymbolsStayApart(Run(1, front), v, values[i]);
    RunKeepsDifference(Step(Run(1, front), v), Step(Run(1, front), values[i]), back);
  }

  lemma RunOne(c: State, v: State)
    ensures Run(c, [v]) == Step(c, v)
  {
    assert [v][..0] == [];
  }

  lemma SymbolsStayApart(c: State, v: State, w: State)
    requires v != w
    ensures Step(c, v) != Step(c, w)
  {
    hide Step, Xor;
    XorZero(v, w);
    XorZero(c, c);
    StepIsLinear(c, c, v, w);
    XorZero(Step(c, v), Step(c, w));
    FromZero(Xor(v, w));
  }

  lemma FromZero(v: State)
    ensures Step(0, v) == v
  {
  }

  // ---- checksums verify ----

  // The six symbols that packing `word` into five-bit pieces gives.
  function Pieces(word: State): (p: seq<State>)
    ensures |p| == 6
  {
    [(word >> 25) & 31, (word >> 20) & 31, (word >> 15) & 31, (word >> 10) & 31, (word >> 5) & 31, word & 31]
  }

  const SIX_ZEROS: seq<State> := [0, 0, 0, 0, 0, 0]

  function Checksum(values: seq<State>, const_: State): seq<State> {
    Pieces(Xor(Polymod(values + SIX_ZEROS), const_))
  }

  // Below the five top bits a step is only a shift.
  lemma ShiftStep(chk: State, v: State)
    requires chk < 0x2000000
    ensures Step(chk, v) == (chk << 5) ^ v
  {
  }

  lemma ShiftIn0(word: State)
    ensures Step(0, (word >> 25) & 31) == word >> 25
  {
    ShiftStep(0, (word >> 25) & 31);
  }

  lemma ShiftIn1(word: State)
    ensures Step(word >> 25, (word >> 20) & 31) == word >> 20
  {
    ShiftStep(word >> 25, (word >> 20) & 31);
  }

  lemma ShiftIn2(word: State)
    ensures Step(word >> 20, (word >> 15) & 31) == word >> 15
  {
    ShiftStep(word >> 20, (word >> 15) & 31);
  }

  lemma ShiftIn3(word: State)
    ensures Step(word >> 15, (word >> 10) & 31) == word >> 10
  {
    ShiftStep(word >> 15, (word >> 10) & 31);
  }

  lemma ShiftIn4(word: State)
    ensures Step(word >> 10, (word >> 5) & 31) == word >> 5
  {
    ShiftStep(word >> 10, (word >> 5) & 31);
  }

  lemma ShiftIn5(word: State)
    ensures Step(word >> 5, word & 31) == word
  {
    ShiftStep(word >> 5, word & 31);
  }

  lemma RunSnoc(c: State, values: seq<State>, v: State)
    ensures Run(c, values + [v]) == Step(Run(c, values), v)
  {
    hide Step;
    assert (values + [v])[..|values|] == values;
  }

  // Fed into an empty register, the pieces of a word rebuild the word.
  lemma PiecesRebuild(word: State)
    ensures Run(0, Pieces(word)) == word
  {
    hide Step, Run;
    var p := Pieces(word);
    ShiftIn0(word);
    ShiftIn1(word);
    ShiftIn2(word);
    ShiftIn3(word);
    ShiftIn4(word);
    ShiftIn5(word);
    RunOne(0, p[0]);
    RunSnoc(0, [p[0]], p[1]);
    RunSnoc(0, [p[0], p[1]], p[2]);
    RunSnoc(0, [p[0], p[1], p[2]], p[3]);
    RunSnoc(0, [p[0], p[1], p[2], p[3]], p[4]);
    RunSnoc(0, [p[0], p[1], p[2], p[3], p[4]], p[5]);
    assert [p[0]] + [p[1]] == [p[0], p[1]];
    assert [p[0], p[1]] + [p[2]] == [p[0], p[1], p[2]];
    assert [p[0], p[1], p[2]] + [p[3]] == [p[0], p[1], p[2], p[3]];
    assert [p[0], p[1], p[2], p[3]] + [p[4]] == [p[0], p[1], p[2], p[3], p[4]];
    assert [p[0], p[1], p[2], p[3], p[4]] + [p[5]] == p;
  }

  // A created checksum always verifies: appended to its values it leaves the constant.
  lemma ChecksumVerifies(values: seq<State>, const_: State)
    ensures Polymod(values + Checksum(values, const_)) == const_
  {
    hide Step, Run, Pieces, Xor, Xors;
    var s := Run(1, values);
    var z := Run(s, SIX_ZEROS);
    RunAppend(1, values, SIX_ZEROS);
    var pieces := Pieces(Xor(z, const_));
    RunAppend(1, values, pieces);
    RunIsLinear(s, 0, SIX_ZEROS, pieces);
    XorsWithZeros(pieces);
    PiecesRebuild(Xor(z, const_));
    XorCancels(z, const_);
    XorWithZero(s);
  }

  lemma XorsWithZeros(p: seq<State>)
    requires |p| == 6
    ensures Xors(SIX_ZEROS, p) == p
  {
  }

  lemma XorCancels(z: State, c: State)
    ensures Xor(z, Xor(z, c)) == c
  {
  }

  lemma XorWithZero(s: State)
    ensures Xor(s, 0) == s
  {
  }

  // ---- known texts ----

  // Feeding symbols along the states they lead through.
  lemma {:induction false} RunAlong(states: seq<State>, values: seq<State>)
    requires |states| == |values| + 1
    requires forall i :: 0 <= i < |values| ==> Step(states[i], values[i]) == states[i + 1]
    ensures Run(states[0], values) == states[|values|]
  {
    hide Step;
    if values != [] {
      RunAlong(states[..|values|], values[..|values| - 1]);
    }
  }

  // The published text "a12uel5l" (BIP 173), without data.
  lemma KnownBech32()
    ensures Polymod([3, 0, 1, 10, 28, 25, 31, 20, 31]) == BECH32_CONST
  {
    assert Step(0x1, 3) == 0x23 && Step(0x23, 0) == 0x460 && Step(0x460, 1) == 0x8C01;
    assert Step(0x8C01, 10) == 0x11802A && Step(0x11802A, 28) == 0x230055C && Step(0x230055C, 25) == 0x3D6AFC2B;
    assert Step(0x3D6AFC2B, 31) == 0x2F84386 && Step(0x2F84386, 20) == 0x24622766 && Step(0x24622766, 31) == 0x1;
    hide Step;
    RunAlong([0x1, 0x23, 0x460, 0x8C01, 0x11802A, 0x230055C, 0x3D6AFC2B, 0x2F84386, 0x24622766, 0x1],
             [3, 0, 1, 10, 28, 25, 31, 20, 31]);
  }

  // The published text "a1lqfn3a" (BIP 350), without data.
  lemma KnownBech32m()
    ensures Polymod([3, 0, 1, 31, 0, 9, 19, 17, 29]) == BECH32M_CONST
  {
    assert Step(0x1, 3) == 0x23 && Step(0x23, 0) == 0x460 && Step(0x460, 1) == 0x8C01;
    assert Step(0x8C01, 31) == 0x11803F && Step(0x11803F, 0) == 0x23007E0 && Step(0x23007E0, 9) == 0x3D6AABBB;
    assert Step(0x3D6AABBB, 19) == 0x2F2B18A && Step(0x2F2B18A, 17) == 0x253C66E3 && Step(0x253C66E3, 29) == 0x2BC830A3;
    hide Step;
    RunAlong([0x1, 0x23, 0x460, 0x8C01, 0x11803F, 0x23007E0, 0x3D6AABBB, 0x2F2B18A, 0x253C66E3, 0x2BC830A3],
             [3, 0, 1, 31, 0, 9, 19, 17, 29]);
  }

  // ---- a zero version never becomes another one ----

  function ZeroSymbols(count: nat): seq<State> {
    seq(count, _ => 0)
  }

  // Feeding zeros, along the states they lead through.
  lemma {:induction false} RunZeros(states: seq<State>)
    requires states != [] && forall i :: 0 <= i < |states| - 1 ==> Step(states[i], 0) == states[i + 1]
    ensures Run(states[0], ZeroSymbols(|states| - 1)) == states[|states| - 1]
  {
    hide Step;
    if |states| > 1 {
      var n := |states| - 1;
      RunZeros(states[..n]);
      assert ZeroSymbols(n)[..n - 1] == ZeroSymbols(n - 1);
    }
  }

  lemma RunMoreZeros(c: State, m: nat, n: nat)
    ensures Run(c, ZeroSymbols(m + n)) == Run(Run(c, ZeroSymbols(m)), ZeroSymbols(n))
  {
    RunAppend(c, ZeroSymbols(m), ZeroSymbols(n));
    assert ZeroSymbols(m + n) == ZeroSymbols(m) + ZeroSymbols(n);
  }

  lemma Leap0()
    ensures Run(0x9BEEEC5, ZeroSymbols(10)) == 0x2E7CA086
  {
    assert Step(0x9BEEEC5, 0) == 0x297CC15A && Step(0x297CC15A, 0) == 0x1B2D5009;
    assert Step(0x1B2D5009, 0) == 0x3D237CB5 && Step(0x3D237CB5, 0) == 0xBC85059;
    assert Step(0xBC85059, 0) == 0x1CC14568 && Step(0x1CC14568, 0) == 0x1D9B094A;
    assert Step(0x1D9B094A, 0) == 0x36D28D0A && Step(0x36D28D0A, 0) == 0x103D29F1;
    assert Step(0x103D29F1, 0) == 0x3AE70DFD && Step(0x3AE70DFD, 0) == 0x2E7CA086;
    hide Step;
    RunZeros([0x9BEEEC5, 0x297CC15A, 0x1B2D5009, 0x3D237CB5, 0xBC85059, 0x1CC14568,
              0x1D9B094A, 0x36D28D0A, 0x103D29F1, 0x3AE70DFD, 0x2E7CA086]);
  }

  lemma Leap1()
    ensures Run(0x2E7CA086, ZeroSymbols(10)) == 0x1C43ADE6
  {
    assert Step(0x2E7CA086, 0) == 0x261BB256 && Step(0x261BB256, 0) == 0x3458F1AC;
    assert Step(0x3458F1AC, 0) == 0x3A18EA83 && Step(0x3A18EA83, 0) == 0x31804F46;
    assert Step(0x31804F46, 0) == 0x275FB9AE && Step(0x275FB9AE, 0) == 0x1CD98EAC;
    assert Step(0x1CD98EAC, 0) == 0x1E8271CA && Step(0x1E8271CA, 0) == 0x2E97CAB8;
    assert Step(0x2E97CAB8, 0) == 0x3B76F596 && Step(0x3B76F596, 0) == 0x1C43ADE6;
    hide Step;
    RunZeros([0x2E7CA086, 0x261BB256, 0x3458F1AC, 0x3A18EA83, 0x31804F46, 0x275FB9AE,
              0x1CD98EAC, 0x1E8271CA, 0x2E97CAB8, 0x3B76F596, 0x1C43ADE6]);
  }

  lemma Leap2()
    ensures Run(0x1C43ADE6, ZeroSymbols(10)) == 0x325DFCD3
  {
    assert Step(0x1C43ADE6, 0) == 0xDC6188A && Step(0xDC6188A, 0) == 0x3286D7;
    assert Step(0x3286D7, 0) == 0x650DAE0 && Step(0x650DAE0, 0) == 0x172185DF;
    assert Step(0x172185DF, 0) == 0x44851E2 && Step(0x44851E2, 0) == 0x2F5AB22D;
    assert Step(0x2F5AB22D, 0) == 0x2D9E736 && Step(0x2D9E736, 0) == 0x2056B172;
    assert Step(0x2056B172, 0) == 0x20C24CF3 && Step(0x20C24CF3, 0) == 0x325DFCD3;
    hide Step;
    RunZeros([0x1C43ADE6, 0xDC6188A, 0x3286D7, 0x650DAE0, 0x172185DF, 0x44851E2,
              0x2F5AB22D, 0x2D9E736, 0x2056B172, 0x20C24CF3, 0x325DFCD3]);
  }

  lemma Leap3()
    ensures Run(0x325DFCD3, ZeroSymbols(10)) == 0x2EE46278
  {
    assert Step(0x325DFCD3, 0) == 0x27839CBC && Step(0x27839CBC, 0) == 0x75D2CEC;
    assert Step(0x75D2CEC, 0) == 0x369F445F && Step(0x369F445F, 0) == 0x19840351;
    assert Step(0x19840351, 0) == 0x13634007 && Step(0x13634007, 0) == 0x2A40648F;
    assert Step(0x2A40648F, 0) == 0x7D3BD1B && Step(0x7D3BD1B, 0) == 0x274D7ABF;
    assert Step(0x274D7ABF, 0) == 0x1E81EC8C && Step(0x1E81EC8C, 0) == 0x2EE46278;
    hide Step;
    RunZeros([0x325DFCD3, 0x27839CBC, 0x75D2CEC, 0x369F445F, 0x19840351, 0x13634007,
              0x2A40648F, 0x7D3BD1B, 0x274D7ABF, 0x1E81EC8C, 0x2EE46278]);
  }

  lemma Leap4()
    ensures Run(0x2EE46278, ZeroSymbols(10)) == 0x32464667
  {
    assert Step(0x2EE46278, 0) == 0x3503ED96 && Step(0x3503ED96, 0) == 0x117B6DC3;
    assert Step(0x117B6DC3, 0) == 0x122F8BBD && Step(0x122F8BBD, 0) == 0x3D913CF;
    assert Step(0x3D913CF, 0) == 0x482E52 && Step(0x482E52, 0) == 0x905CA40;
    assert Step(0x905CA40, 0) == 0x3E1851FA && Step(0x3E1851FA, 0) == 0x17C7AE0B;
    assert Step(0x17C7AE0B, 0) == 0x188D2B62 && Step(0x188D2B62, 0) == 0x32464667;
    hide Step;
    RunZeros([0x2EE46278, 0x3503ED96, 0x117B6DC3, 0x122F8BBD, 0x3D913CF, 0x482E52,
              0x905CA40, 0x3E1851FA, 0x17C7AE0B, 0x188D2B62, 0x32464667]);
  }

  lemma Leap5()
    ensures Run(0x32464667, ZeroSymbols(8)) == 0x2BC830A2
  {
    assert Step(0x32464667, 0) == 0x24F4CA3C && Step(0x24F4CA3C, 0) == 0x12DDAB5E;
    assert Step(0x12DDAB5E, 0) == 0x1D9D0FAF && Step(0x1D9D0FAF, 0) == 0x361251AA;
    assert Step(0x361251AA, 0) == 0x826BDF1 && Step(0x826BDF1, 0) == 0x1A76A7DA;
    assert Step(0x1A76A7DA, 0) == 0x165D86D5 && Step(0x165D86D5, 0) == 0x2BC830A2;
    hide Step;
    RunZeros([0x32464667, 0x24F4CA3C, 0x12DDAB5E, 0x1D9D0FAF, 0x361251AA, 0x826BDF1,
              0x1A76A7DA, 0x165D86D5, 0x2BC830A2]);
  }

  // The states from which 38 and 58 zeros lead to the difference of the two constants are no
  // symbols: those are the lengths after the version of a 20 and of a 32 byte program.
  lemma DifferenceComesFrom()
    ensures Run(0x1C43ADE6, ZeroSymbols(38)) == 0x2BC830A2 && Run(0x9BEEEC5, ZeroSymbols(58)) == 0x2BC830A2
    ensures Xor(BECH32_CONST, BECH32M_CONST) == 0x2BC830A2 == Xor(BECH32M_CONST, BECH32_CONST)
  {
    Leap0();
    Leap1();
    Leap2();
    Leap3();
    Leap4();
    Leap5();
    hide Run, ZeroSymbols;
    RunMoreZeros(0x2EE46278, 10, 8);
    RunMoreZeros(0x325DFCD3, 10, 18);
    RunMoreZeros(0x1C43ADE6, 10, 28);
    RunMoreZeros(0x2E7CA086, 10, 38);
    RunMoreZeros(0x9BEEEC5, 10, 48);
  }

  lemma SymbolMissesDifference(d: State, n: nat)
    requires d < 32 && (n == 38 || n == 58)
    ensures Run(d, ZeroSymbols(n)) != Xor(BECH32_CONST, BECH32M_CONST)
  {
    DifferenceComesFrom();
    hide Run, ZeroSymbols, Xor;
    RunKeepsDifference(d, if n == 38 then 0x1C43ADE6 else 0x9BEEEC5, ZeroSymbols(n));
  }

  // With so many symbols after it, replacing a symbol never turns one constant into the other.
  lemma ConstantsAreApart(before: seq<State>, v: State, w: State, after: seq<State>)
    requires Xor(v, w) < 32 && (|after| == 38 || |after| == 58)
    ensures Xor(Polymod(before + [v] + after), Polymod(before + [w] + after)) != Xor(BECH32_CONST, BECH32M_CONST)
  {
    var s := Run(1, before);
    RunAppend(1, before + [v], after);
    RunAppend(1, before + [w], after);
    RunSnoc(1, before, v);
    RunSnoc(1, before, w);
    RunIsLinear(Step(s, v), Step(s, w), after, after);
    StepIsLinear(s, s, v, w);
    XorTwice(s, s);
    FromZero(Xor(v, w));
    XorsWithItself(after);
    SymbolMissesDifference(Xor(v, w), |after|);
    hide *;
  }

  lemma XorsWithItself(values: seq<State>)
    ensures Xors(values, values) == ZeroSymbols(|values|)
  {
    forall i | 0 <= i < |values|
      ensures Xors(values, values)[i] == 0
    {
      XorTwice(values[i], values[i]);
    }
  }
}
