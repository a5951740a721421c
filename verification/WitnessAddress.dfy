// Bech32 text and witness addresses (netcoin/crypto.py; BIP 173 sections "Bech32" and "Segwit
// address format", BIP 350 section "Bech32m").
module WitnessAddress {
  import opened Wrappers
  import opened BitStrings
  import opened Bech32

  datatype AddressError =
    | CharacterRange | MixedCase | SeparatorOrLength | UnknownCharacter | BadChecksum
    | WrongHrp | EmptyData | VersionOutOfRange | ProgramLength | WrongSpec | BadPadding(reason: ConvertError)

  datatype Decoded = Decoded(hrp: string, data: seq<nat>, spec: Spec)

  datatype Witness = Witness(version: nat, program: seq<nat>, spec: Spec)

  // ---- characters ----

  predicate IsUpper(c: char) {
    'A' <= c <= 'Z'
  }

  predicate IsLower(c: char) {
    'a' <= c <= 'z'
  }

  function LowerChar(c: char): char {
    if IsUpper(c) then c + 32 as char else c
  }

  function Lower(s: string): (r: string)
    ensures |r| == |s|
    ensures forall i :: 0 <= i < |s| ==> r[i] == LowerChar(s[i])
  {
    seq(|s|, i requires 0 <= i < |s| => LowerChar(s[i]))
  }

  predicate MixedCase(s: string) {
    (exists i :: 0 <= i < |s| && IsUpper(s[i])) && (exists i :: 0 <= i < |s| && IsLower(s[i]))
  }

  predicate Printable(s: string) {
    forall i :: 0 <= i < |s| ==> 33 <= s[i] as int <= 126
  }

  predicate IsSymbol(n: nat) {
    n < 32
  }

  // The alphabet, symbol by symbol.
  function CharOf(n: nat): char
    requires IsSymbol(n)
  {
    match n
    case 0 => 'q' case 1 => 'p' case 2 => 'z' case 3 => 'r'
    case 4 => 'y' case 5 => '9' case 6 => 'x' case 7 => '8'
    case 8 => 'g' case 9 => 'f' case 10 => '2' case 11 => 't'
    case 12 => 'v' case 13 => 'd' case 14 => 'w' case 15 => '0'
    case 16 => 's' case 17 => '3' case 18 => 'j' case 19 => 'n'
    case 20 => '5' case 21 => '4' case 22 => 'k' case 23 => 'h'
    case 24 => 'c' case 25 => 'e' case 26 => '6' case 27 => 'm'
    case 28 => 'u' case 29 => 'a' case 30 => '7' case _ => 'l'
  }

  // The symbol of a character; 32 when it is not in the alphabet.
  function SymbolOf(c: char): (n: nat)
    ensures n <= 32
  {
    match c
    case 'q' => 0 case 'p' => 1 case 'z' => 2 case 'r' => 3
    case 'y' => 4 case '9' => 5 case 'x' => 6 case '8' => 7
    case 'g' => 8 case 'f' => 9 case '2' => 10 case 't' => 11
    case 'v' => 12 case 'd' => 13 case 'w' => 14 case '0' => 15
    case 's' => 16 case '3' => 17 case 'j' => 18 case 'n' => 19
    case '5' => 20 case '4' => 21 case 'k' => 22 case 'h' => 23
    case 'c' => 24 case 'e' => 25 case '6' => 26 case 'm' => 27
    case 'u' => 28 case 'a' => 29 case '7' => 30 case 'l' => 31
    case _ => 32
  }

  // Last position of the separator, or -1.
  function LastSeparator(s: string): (p: int)
    ensures -1 <= p < |s|
    ensures p >= 0 ==> s[p] == '1'
    ensures forall i :: p < i < |s| ==> s[i] != '1'
  {
    if s == [] then -1
    else if s[|s| - 1] == '1' then |s| - 1
    else LastSeparator(s[..|s| - 1])
  }

  // ---- Bech32 text ----

  ghost predicate AllSymbols(data: seq<nat>) {
    forall i :: 0 <= i < |data| ==> IsSymbol(data[i])
  }

  function WordOf(n: nat): State {
    if n < 32 then n as bv30 else 0
  }

  function Words(data: seq<nat>): (w: seq<State>)
    ensures |w| == |data|
  {
    seq(|data|, i requires 0 <= i < |data| => WordOf(data[i]))
  }

  function HighWord(c: char): State {
    (c as int / 32) as bv30
  }

  function LowWord(c: char): State {
    (c as int % 32) as bv30
  }

  function HrpExpand(hrp: string): seq<State> {
    seq<State>(|hrp|, i requires 0 <= i < |hrp| => HighWord(hrp[i])) + [0] +
    seq<State>(|hrp|, i requires 0 <= i < |hrp| => LowWord(hrp[i]))
  }

  function SymbolsOfWords(w: seq<State>): (data: seq<nat>)
    ensures |data| == |w|
  {
    seq(|w|, i requires 0 <= i < |w| => w[i] as int)
  }

  function CreateChecksum(hrp: string, data: seq<nat>, spec: Spec): (c: seq<nat>)
    ensures |c| == 6
  {
    SymbolsOfWords(Checksum(HrpExpand(hrp) + Words(data), spec.Const()))
  }

  function VerifyChecksum(hrp: string, data: seq<nat>): Option<Spec> {
    var check := Polymod(HrpExpand(hrp) + Words(data));
    if check == BECH32_CONST then Some(Spec.Bech32)
    else if check == BECH32M_CONST then Some(Spec.Bech32m)
    else None
  }

  function Text(data: seq<nat>): (s: string)
    ensures |s| == |data|
  {
    seq(|data|, i requires 0 <= i < |data| => if IsSymbol(data[i]) then CharOf(data[i]) else '?')
  }

  function Encode(hrp: string, data: seq<nat>, spec: Spec): string {
    hrp + "1" + Text(data + CreateChecksum(hrp, data, spec))
  }

  function Symbols(s: string): (data: seq<nat>)
    ensures |data| == |s|
    ensures forall i :: 0 <= i < |data| ==> data[i] <= 32
  {
    seq(|s|, i requires 0 <= i < |s| => SymbolOf(s[i]))
  }

  function Decode(input: string): Result<Decoded, AddressError> {
    if !Printable(input) then Err(CharacterRange)
    else if MixedCase(input) then Err(AddressError.MixedCase)
    else
      var text := Lower(input);
      var pos := LastSeparator(text);
      if pos < 1 || pos + 7 > |text| || |text| > 90 then Err(SeparatorOrLength)
      else DecodeSymbols(text[..pos], Symbols(text[pos + 1..]))
  }

  // The symbols after the separator, the checksum last.
  function DecodeSymbols(hrp: string, data: seq<nat>): Result<Decoded, AddressError>
    requires |data| >= 6
  {
    if exists i :: 0 <= i < |data| && data[i] == 32 then Err(UnknownCharacter)
    else
      match VerifyChecksum(hrp, data)
      case None => Err(BadChecksum)
      case Some(spec) => Ok(Decoded(hrp, data[..|data| - 6], spec))
  }

  // ---- witness addresses ----

  function SpecFor(version: nat): Spec {
    if version == 0 then Spec.Bech32 else Spec.Bech32m
  }

  function ProgramError(version: nat, program: seq<nat>): Option<AddressError> {
    if version > 16 then Some(VersionOutOfRange)
    else if !(2 <= |program| <= 40) then Some(ProgramLength)
    else if version == 0 && |program| != 20 && |program| != 32 then Some(ProgramLength)
    else None
  }

  function EncodeWitness(version: nat, program: seq<nat>, hrp: string): Result<string, AddressError> {
    match ProgramError(version, program)
    case Some(e) => Err(e)
    case None =>
      match Convert(program, 8, 5, true)
      case Err(reason) => Err(BadPadding(reason))
      case Ok(symbols) => Ok(Encode(hrp, [version] + symbols, SpecFor(version)))
  }

  function DecodeWitness(address: string, hrp: string): Result<Witness, AddressError> {
    match Decode(address)
    case Err(e) => Err(e)
    case Ok(d) =>
      if d.hrp != hrp then Err(WrongHrp)
      else if d.data == [] then Err(EmptyData)
      else if d.data[0] > 16 then Err(VersionOutOfRange)
      else
        match Convert(d.data[1..], 5, 8, false)
        case Err(reason) => Err(BadPadding(reason))
        case Ok(program) =>
          if !(2 <= |program| <= 40) then Err(ProgramLength)
          else if d.data[0] == 0 && d.spec != Spec.Bech32 then Err(WrongSpec)
          else if d.data[0] == 0 && |program| != 20 && |program| != 32 then Err(ProgramLength)
          else if d.data[0] != 0 && d.spec != Spec.Bech32m then Err(WrongSpec)
          else Ok(Witness(d.data[0], program, d.spec))
  }

  // ---- the alphabet is a bijection ----

  lemma AlphabetFacts(n: nat)
    requires n < 32
    ensures SymbolOf(CharOf(n)) == n
    ensures CharOf(n) != '1' && !IsUpper(CharOf(n)) && 33 <= CharOf(n) as int <= 126
  {
  }

  lemma SymbolsOfText(data: seq<nat>)
    requires AllSymbols(data)
    ensures Symbols(Text(data)) == data
    ensures forall i :: 0 <= i < |data| ==>
              Text(data)[i] != '1' && !IsUpper(Text(data)[i]) && 33 <= Text(data)[i] as int <= 126
  {
    forall i | 0 <= i < |data|
      ensures Symbols(Text(data))[i] == data[i]
      ensures Text(data)[i] != '1' && !IsUpper(Text(data)[i]) && 33 <= Text(data)[i] as int <= 126
    {
      AlphabetFacts(data[i]);
    }
  }

  lemma WordRoundTrip(w: State)
    requires w < 32
    ensures w as int < 32 && WordOf(w as int) == w
  {
  }

  lemma WordsAreApart(m: nat, n: nat)
    requires m < 32 && n < 32 && m != n
    ensures WordOf(m) != WordOf(n)
  {
    WordValue(m);
    WordValue(n);
    hide WordOf;
  }

  lemma WordValue(m: nat)
    requires m < 32
    ensures WordOf(m) as int == m
  {
    match m
    case 0 => case 1 => case 2 => case 3 => case 4 => case 5 => case 6 => case 7 =>
    case 8 => case 9 => case 10 => case 11 => case 12 => case 13 => case 14 => case 15 =>
    case 16 => case 17 => case 18 => case 19 => case 20 => case 21 => case 22 => case 23 =>
    case 24 => case 25 => case 26 => case 27 => case 28 => case 29 => case 30 => case _ =>
  }

  lemma PiecesAreSymbols(word: State)
    ensures forall i :: 0 <= i < 6 ==> Pieces(word)[i] < 32
  {
  }

  lemma ChecksumSymbols(values: seq<State>, const_: State)
    ensures AllSymbols(SymbolsOfWords(Checksum(values, const_)))
    ensures Words(SymbolsOfWords(Checksum(values, const_))) == Checksum(values, const_)
  {
    hide Polymod, Pieces;
    var c := Checksum(values, const_);
    PiecesAreSymbols(Xor(Polymod(values + SIX_ZEROS), const_));
    forall i | 0 <= i < 6
      ensures IsSymbol(SymbolsOfWords(c)[i]) && Words(SymbolsOfWords(c))[i] == c[i]
    {
      WordRoundTrip(c[i]);
    }
  }

  // ---- round trips ----

  predicate GoodHrp(hrp: string) {
    hrp != "" && Printable(hrp) && forall i :: 0 <= i < |hrp| ==> !IsUpper(hrp[i])
  }

  lemma ChecksumIsAccepted(hrp: string, data: seq<nat>, spec: Spec)
    ensures AllSymbols(CreateChecksum(hrp, data, spec))
    ensures VerifyChecksum(hrp, data + CreateChecksum(hrp, data, spec)) == Some(spec)
  {
    hide Polymod, Checksum;
    var values := HrpExpand(hrp) + Words(data);
    var check := Checksum(values, spec.Const());
    ChecksumSymbols(values, spec.Const());
    ChecksumVerifies(values, spec.Const());
    assert Words(data + CreateChecksum(hrp, data, spec)) == Words(data) + check;
    assert HrpExpand(hrp) + (Words(data) + check) == values + check;
  }

  lemma {:induction false} SeparatorIsFound(s: string, p: nat)
    requires p < |s| && s[p] == '1' && forall i :: p < i < |s| ==> s[i] != '1'
    ensures LastSeparator(s) == p
  {
    var q := LastSeparator(s);
    SeparatorExists(s, p);
  }

  lemma {:induction false} SeparatorExists(s: string, p: nat)
    requires p < |s| && s[p] == '1'
    ensures LastSeparator(s) >= p
  {
    if p < |s| - 1 && s[|s| - 1] != '1' {
      SeparatorExists(s[..|s| - 1], p);
    }
  }

  // The text around a separator, when everything is lower case.
  lemma TextParts(hrp: string, symbols: seq<nat>)
    requires GoodHrp(hrp) && AllSymbols(symbols)
    ensures var text := hrp + "1" + Text(symbols);
            && Printable(text) && !MixedCase(text) && Lower(text) == text
            && LastSeparator(text) == |hrp|
            && text[..|hrp|] == hrp && Symbols(text[|hrp| + 1..]) == symbols
  {
    hide CharOf, SymbolOf, Text, Symbols;
    var text := hrp + "1" + Text(symbols);
    SymbolsOfText(symbols);
    forall i | 0 <= i < |text|
      ensures 33 <= text[i] as int <= 126 && !IsUpper(text[i]) && (i > |hrp| ==> text[i] != '1')
    {
      if i < |hrp| {
        assert text[i] == hrp[i];
      } else if i > |hrp| {
        assert text[i] == Text(symbols)[i - |hrp| - 1];
      }
    }
    SeparatorIsFound(text, |hrp|);
    assert text[|hrp| + 1..] == Text(symbols);
  }

  // Encoding and decoding Bech32 text: the data comes back exactly when the text is at most
  // 90 characters long.
  lemma DecodeOfEncode(hrp: string, data: seq<nat>, spec: Spec)
    requires GoodHrp(hrp) && AllSymbols(data)
    ensures Decode(Encode(hrp, data, spec)) ==
            if |Encode(hrp, data, spec)| <= 90 then Ok(Decoded(hrp, data, spec)) else Err(SeparatorOrLength)
  {
    hide Text, Symbols, VerifyChecksum, CreateChecksum, Printable, MixedCase, Lower, LastSeparator;
    var all := data + CreateChecksum(hrp, data, spec);
    ChecksumIsAccepted(hrp, data, spec);
    TextParts(hrp, all);
    assert all[..|all| - 6] == data;
    assert forall i :: 0 <= i < |all| ==> all[i] != 32;
  }

  // Every allowed version and program survives the round trip, under any prefix that leaves
  // room for it.
  lemma WitnessRoundTrip(version: nat, program: seq<nat>, hrp: string)
    requires GoodHrp(hrp) && InRange(program, 8) && ProgramError(version, program).None?
    ensures EncodeWitness(version, program, hrp).Ok?
    ensures var address := EncodeWitness(version, program, hrp).value;
            && (|hrp| <= 18 ==> |address| <= 90)
            && DecodeWitness(address, hrp) ==
               if |address| <= 90 then Ok(Witness(version, program, SpecFor(version))) else Err(SeparatorOrLength)
  {
    hide Convert, Decode, Text, CreateChecksum;
    RegroupRoundTrip(program);
    var symbols := Convert(program, 8, 5, true).value;
    assert Pow2(5) == 32;
    var data := [version] + symbols;
    assert AllSymbols(data) by {
      assert forall i :: 0 < i < |data| ==> data[i] == symbols[i - 1];
    }
    DecodeOfEncode(hrp, data, SpecFor(version));
    assert data[1..] == symbols;
  }

  // The network's own prefix always leaves room.
  lemma NetAddressRoundTrip(version: nat, program: seq<nat>)
    requires InRange(program, 8) && ProgramError(version, program).None?
    ensures EncodeWitness(version, program, "net").Ok?
    ensures DecodeWitness(EncodeWitness(version, program, "net").value, "net") ==
            Ok(Witness(version, program, SpecFor(version)))
  {
    hide EncodeWitness, DecodeWitness;
    WitnessRoundTrip(version, program, "net");
  }

  // Versions up to sixteen with programs of two to forty bytes, of which version 0 knows only
  // twenty and thirty-two: nothing else encodes, and nothing else decodes.
  ghost predicate IsWitness(version: nat, program: seq<nat>) {
    version <= 16 && 2 <= |program| <= 40 && (version == 0 ==> |program| == 20 || |program| == 32)
  }

  lemma WitnessesExactly(version: nat, program: seq<nat>, hrp: string)
    requires InRange(program, 8)
    ensures EncodeWitness(version, program, hrp).Ok? <==> IsWitness(version, program)
  {
    hide Convert, Encode;
    RegroupRoundTrip(program);
  }

  lemma DecodedIsWitness(address: string, hrp: string)
    requires DecodeWitness(address, hrp).Ok?
    ensures var w := DecodeWitness(address, hrp).value;
            IsWitness(w.version, w.program) && (w.version == 0 <==> w.spec == Spec.Bech32)
  {
    hide Decode, Convert;
  }

  // Position p separates prefix from symbols: at least one character before it, at least six after
  // it, all of the alphabet, in at most ninety characters.
  ghost predicate DecodesAt(text: string, p: int, d: Decoded) {
    && 1 <= p && p + 7 <= |text| <= 90 && text[p] == '1' && d.hrp == text[..p]
    && (forall i :: p < i < |text| ==> SymbolOf(text[i]) < 32)
    && d.data == Symbols(text[p + 1..])[..|text| - p - 7]
    && VerifyChecksum(d.hrp, Symbols(text[p + 1..])) == Some(d.spec)
  }

  // The alphabet does not hold the separator.
  lemma SymbolsAfter(text: string, p: nat, symbols: seq<nat>)
    requires p < |text| && symbols == Symbols(text[p + 1..])
    ensures (forall i :: p < i < |text| ==> SymbolOf(text[i]) < 32) <==>
            !exists i :: 0 <= i < |symbols| && symbols[i] == 32
    ensures (forall i :: p < i < |text| ==> SymbolOf(text[i]) < 32) ==> forall i :: p < i < |text| ==> text[i] != '1'
  {
    assert SymbolOf('1') == 32;
    hide SymbolOf;
    assert forall i :: 0 <= i < |symbols| ==> symbols[i] == SymbolOf(text[p + 1 + i]);
    forall i | p < i < |text| ensures SymbolOf(text[i]) == symbols[i - p - 1] {
    }
  }

  lemma DecodedAt(text: string, p: int, d: Decoded)
    ensures DecodesAt(text, p, d) <==>
            && p == LastSeparator(text) && 1 <= p && p + 7 <= |text| <= 90
            && DecodeSymbols(text[..p], Symbols(text[p + 1..])) == Ok(d)
  {
    hide VerifyChecksum, SymbolOf, Symbols, LastSeparator;
    if 1 <= p && p + 7 <= |text| {
      SymbolsAfter(text, p, Symbols(text[p + 1..]));
      if DecodesAt(text, p, d) {
        SeparatorIsFound(text, p);
      }
    }
  }

  // Printable, and not in both cases.
  ghost predicate Readable(input: string) {
    && (forall i :: 0 <= i < |input| ==> '!' <= input[i] <= '~')
    && forall i, j :: 0 <= i < |input| && 0 <= j < |input| && 'A' <= input[i] <= 'Z' ==> !('a' <= input[j] <= 'z')
  }

  lemma ReadableExactly(input: string)
    ensures Printable(input) && !MixedCase(input) <==> Readable(input)
  {
  }

  // Text decodes exactly when it is readable and so separated, to the parts around the separator.
  lemma DecodesExactly(input: string, d: Decoded)
    ensures Decode(input) == Ok(d) <==> Readable(input) && exists p :: DecodesAt(Lower(input), p, d)
  {
    hide DecodeSymbols, Printable, MixedCase, Readable, DecodesAt, LastSeparator, Symbols;
    ReadableExactly(input);
    var text := Lower(input);
    if p :| DecodesAt(text, p, d) {
      DecodedAt(text, p, d);
    }
    DecodedAt(text, LastSeparator(text), d);
  }

  // ---- known texts ----

  lemma HrpOfA()
    ensures HrpExpand("a") == [3, 0, 1]
  {
    assert HighWord('a') == 3 && LowWord('a') == 1;
  }

  lemma KnownSymbols()
    ensures Symbols("2uel5l") == [10, 28, 25, 31, 20, 31]
    ensures Words([10, 28, 25, 31, 20, 31]) == [10, 28, 25, 31, 20, 31]
  {
    hide WordOf;
    SmallWords();
  }

  lemma MoreKnownSymbols()
    ensures Symbols("lqfn3a") == [31, 0, 9, 19, 17, 29]
    ensures Words([31, 0, 9, 19, 17, 29]) == [31, 0, 9, 19, 17, 29]
  {
    hide WordOf;
    SmallWords();
  }

  lemma SmallWords()
    ensures WordOf(0) == 0 && WordOf(9) == 9 && WordOf(10) == 10 && WordOf(17) == 17 && WordOf(19) == 19
    ensures WordOf(20) == 20 && WordOf(25) == 25 && WordOf(28) == 28 && WordOf(29) == 29 && WordOf(31) == 31
  {
  }

  // The shortest texts that the two specifications publish verify, each under its own constant.
  lemma KnownTextsVerify()
    ensures VerifyChecksum("a", Symbols("2uel5l")) == Some(Spec.Bech32)
    ensures VerifyChecksum("a", Symbols("lqfn3a")) == Some(Spec.Bech32m)
  {
    HrpOfA();
    KnownSymbols();
    MoreKnownSymbols();
    KnownBech32();
    KnownBech32m();
    hide Polymod, HrpExpand, Words, Symbols;
    var a: seq<State>, b: seq<State> := [10, 28, 25, 31, 20, 31], [31, 0, 9, 19, 17, 29];
    assert [3, 0, 1] + a == [3, 0, 1, 10, 28, 25, 31, 20, 31] && [3, 0, 1] + b == [3, 0, 1, 31, 0, 9, 19, 17, 29];
  }

  // ---- error detection ----

  lemma SubstitutedSymbolFails(hrp: string, data: seq<nat>, i: nat, n: nat)
    requires AllSymbols(data) && i < |data| && IsSymbol(n) && n != data[i]
    requires VerifyChecksum(hrp, data).Some?
    ensures VerifyChecksum(hrp, data[i := n]) != VerifyChecksum(hrp, data)
  {
    hide Polymod;
    var values := HrpExpand(hrp) + Words(data);
    var at := |HrpExpand(hrp)| + i;
    WordsAreApart(n, data[i]);
    SubstitutionChangesPolymod(values, at, WordOf(n));
    assert Words(data[i := n]) == Words(data)[i := WordOf(n)];
    assert values[at := WordOf(n)] == HrpExpand(hrp) + Words(data[i := n]);
  }

  lemma LowerCaseSubstitution(text: string, p: nat, n: nat)
    requires Decode(text).Ok? && Lower(text) == text
    requires LastSeparator(text) < p < |text| && IsSymbol(n) && CharOf(n) != text[p]
    ensures Decode(text[p := CharOf(n)]).Ok? ==> Decode(text[p := CharOf(n)]).value.spec != Decode(text).value.spec
  {
    hide VerifyChecksum, CharOf, SymbolOf, Symbols;
    var pos := LastSeparator(text);
    var changed := text[p := CharOf(n)];
    AlphabetFacts(n);
    assert Lower(changed) == changed;
    SeparatorIsFound(changed, pos);
    var data := Symbols(text[pos + 1..]);
    var i := p - pos - 1;
    ReplacedSymbol(text[pos + 1..], i, n);
    assert changed[pos + 1..] == text[pos + 1..][i := CharOf(n)];
    assert changed[..pos] == text[..pos];
    assert AllSymbols(data);
    SubstitutedSymbolFails(text[..pos], data, i, n);
  }

  // Upper-case text decodes as its lower case does.
  lemma DecodeOfLower(text: string)
    requires Decode(text).Ok?
    ensures Lower(Lower(text)) == Lower(text) && Decode(Lower(text)) == Decode(text)
    ensures LastSeparator(Lower(text)) == LastSeparator(text) >= 1
  {
    hide VerifyChecksum, SymbolOf, Symbols;
    assert Lower(Lower(text)) == Lower(text);
    SeparatorOfLower(text);
  }

  lemma {:induction false} SeparatorOfLower(text: string)
    ensures LastSeparator(Lower(text)) == LastSeparator(text)
  {
    if text != [] {
      SeparatorOfLower(text[..|text| - 1]);
      assert Lower(text)[..|text| - 1] == Lower(text[..|text| - 1]);
    }
  }

  // A text that decodes has only symbols after its separator.
  lemma DecodedSymbols(text: string, p: int)
    requires Decode(text).Ok? && Lower(text) == text && LastSeparator(text) < p < |text|
    ensures SymbolOf(text[p]) < 32
  {
    hide VerifyChecksum, SymbolOf, Printable, MixedCase, Lower, LastSeparator;
    var data := Symbols(text[LastSeparator(text) + 1..]);
    assert data[p - LastSeparator(text) - 1] == SymbolOf(text[p]);
  }

  // Replacing any one character after the separator of a valid text by another character,
  // the separator itself aside, never gives a text that is valid under the same constant.
  lemma SubstitutionIsDetected(text: string, p: int, c: char)
    requires Decode(text).Ok? && LastSeparator(text) < p < |text|
    requires c != '1' && LowerChar(c) != LowerChar(text[p])
    ensures Decode(text[p := c]).Ok? ==> Decode(text[p := c]).value.spec != Decode(text).value.spec
  {
    hide Decode, SymbolOf, CharOf;
    var changed := text[p := c];
    if Decode(changed).Ok? {
      var low, d := Lower(text), LowerChar(c);
      DecodeOfLower(text);
      DecodeOfLower(changed);
      assert Lower(changed) == low[p := d];
      SeparatorIsFound(low[p := d], LastSeparator(low));
      DecodedSymbols(low[p := d], p);
      CharOfSymbol(d);
      LowerCaseSubstitution(low, p, SymbolOf(d));
    }
  }

  lemma ReplacedSymbol(s: string, i: nat, n: nat)
    requires i < |s| && IsSymbol(n) && CharOf(n) != s[i]
    ensures Symbols(s[i := CharOf(n)]) == Symbols(s)[i := n]
    ensures Symbols(s)[i] < 32 ==> Symbols(s)[i] != n
  {
    AlphabetFacts(n);
    CharOfSymbol(s[i]);
  }

  lemma CharOfSymbol(c: char)
    ensures SymbolOf(c) < 32 ==> CharOf(SymbolOf(c)) == c
  {
  }

  // ---- whole addresses ----

  lemma WordsOfSymbols(m: nat, n: nat)
    requires m < 32 && n < 32
    ensures Xor(WordOf(m), WordOf(n)) < 32
  {
    WordIsSmall(m);
    WordIsSmall(n);
    hide WordOf;
  }

  lemma WordIsSmall(m: nat)
    requires m < 32
    ensures WordOf(m) < 32
  {
    WordValue(m);
  }

  // Replacing the version never takes an address of a 20 or 32 byte program from one constant
  // to the other.
  lemma VersionKeepsConstant(hrp: string, data: seq<nat>, n: nat)
    requires AllSymbols(data) && IsSymbol(n) && (|data| == 39 || |data| == 59)
    requires VerifyChecksum(hrp, data).Some? && VerifyChecksum(hrp, data[0 := n]).Some?
    ensures VerifyChecksum(hrp, data[0 := n]) == VerifyChecksum(hrp, data)
  {
    hide Polymod, WordOf, Xor;
    var before, after := HrpExpand(hrp), Words(data[1..]);
    assert HrpExpand(hrp) + Words(data) == before + [WordOf(data[0])] + after;
    assert HrpExpand(hrp) + Words(data[0 := n]) == before + [WordOf(n)] + after;
    WordsOfSymbols(data[0], n);
    ConstantsAreApart(before, WordOf(data[0]), WordOf(n), after);
    XorIsCommutative(BECH32_CONST, BECH32M_CONST);
  }

  // What a decoded witness address says about its text.
  lemma DecodedParts(address: string, hrp: string)
    requires DecodeWitness(address, hrp).Ok?
    ensures Decode(address).Ok?
    ensures var d := Decode(address).value;
            && d.hrp == hrp && d.data != []
            && (d.data[0] == 0 <==> d.spec == Spec.Bech32)
            && (d.data[0] == 0 ==> |d.data| == 33 || |d.data| == 53)
  {
    hide Decode, Convert;
    var d := Decode(address).value;
    ConvertedLength(d.data[1..], 5, 8);
  }

  // A decoded text in lower case, part by part.
  lemma DecodedText(text: string)
    requires Decode(text).Ok? && Lower(text) == text
    ensures var d, pos := Decode(text).value, LastSeparator(text);
            && 1 <= pos && pos + 7 <= |text|
            && d.hrp == text[..pos] && d.data == Symbols(text[pos + 1..])[..|text| - pos - 7]
            && AllSymbols(Symbols(text[pos + 1..]))
            && VerifyChecksum(d.hrp, Symbols(text[pos + 1..])) == Some(d.spec)
  {
    hide *;
    DecodeUnfolds(text);
    DecodedFromSymbols(text[..LastSeparator(text)], Symbols(text[LastSeparator(text) + 1..]));
  }

  lemma DecodeUnfolds(text: string)
    requires Decode(text).Ok? && Lower(text) == text
    ensures var pos := LastSeparator(text);
            && 1 <= pos && pos + 7 <= |text|
            && Decode(text) == DecodeSymbols(text[..pos], Symbols(text[pos + 1..]))
  {
    hide Printable, MixedCase, Lower, LastSeparator, Symbols, DecodeSymbols;
  }

  lemma DecodedFromSymbols(hrp: string, data: seq<nat>)
    requires |data| >= 6 && DecodeSymbols(hrp, data).Ok? && forall i :: 0 <= i < |data| ==> data[i] <= 32
    ensures var d := DecodeSymbols(hrp, data).value;
            d.hrp == hrp && d.data == data[..|data| - 6] && VerifyChecksum(hrp, data) == Some(d.spec)
    ensures AllSymbols(data)
  {
    hide VerifyChecksum;
  }

  // Replacing a symbol after the separator leaves the prefix, and of the data only one symbol
  // changes.
  lemma ReplacedData(text: string, p: int, d: char)
    requires Lower(text) == text && d == LowerChar(d) && d != '1' && LastSeparator(text) < p < |text| &&
             LastSeparator(text) >= 0
    ensures var changed, pos := text[p := d], LastSeparator(text);
            && Lower(changed) == changed && LastSeparator(changed) == pos
            && changed[..pos] == text[..pos]
            && Symbols(changed[pos + 1..]) == Symbols(text[pos + 1..])[p - pos - 1 := SymbolOf(d)]
  {
    hide SymbolOf;
    var changed, pos := text[p := d], LastSeparator(text);
    assert Lower(changed) == changed;
    SeparatorIsFound(changed, pos);
    hide LastSeparator, Lower;
    assert changed[pos + 1..] == text[pos + 1..][p - pos - 1 := d];
  }

  // The version symbol alone cannot be replaced by that of the other constant.
  lemma VersionIsProtected(text: string, d: char, hrp: string)
    requires DecodeWitness(text, hrp).Ok? && Lower(text) == text && d == LowerChar(d) && d != '1'
    requires LastSeparator(text) + 1 < |text|
    ensures var changed := text[LastSeparator(text) + 1 := d];
            DecodeWitness(changed, hrp).Ok? ==>
              && Decode(changed).Ok? && Decode(text).Ok?
              && Decode(changed).value.spec == Decode(text).value.spec
  {
    hide Decode, DecodeWitness, SymbolOf, Lower, LastSeparator, Symbols, VerifyChecksum;
    var pos := LastSeparator(text);
    var changed := text[pos + 1 := d];
    if DecodeWitness(changed, hrp).Ok? {
      DecodedParts(text, hrp);
      DecodedParts(changed, hrp);
      DecodedText(text);
      ReplacedData(text, pos + 1, d);
      DecodedText(changed);
      var data := Symbols(text[pos + 1..]);
      var old_, new_ := Decode(text).value, Decode(changed).value;
      if old_.spec != new_.spec {
        VersionKeepsConstant(hrp, data, SymbolOf(d));
        assert false;
      }
    }
  }

  lemma LowerWitness(address: string, hrp: string)
    requires DecodeWitness(address, hrp).Ok?
    ensures DecodeWitness(Lower(address), hrp) == DecodeWitness(address, hrp)
  {
    hide *;
    DecodedParts(address, hrp);
    DecodeOfLower(address);
    SameDecoding(address, Lower(address), hrp);
  }

  lemma SameDecoding(a: string, b: string, hrp: string)
    requires Decode(a) == Decode(b)
    ensures DecodeWitness(a, hrp) == DecodeWitness(b, hrp)
  {
    hide Decode, Convert;
  }

  // Two texts that differ in one character and have the same prefix differ after it.
  lemma PrefixStays(text: string, p: nat, d: char, hrp: string)
    requires p < |text| && d != text[p]
    requires LastSeparator(text) == |hrp| == LastSeparator(text[p := d])
    requires text[..|hrp|] == hrp == text[p := d][..|hrp|]
    ensures |hrp| < p && d != '1'
  {
    var changed := text[p := d];
    SamePrefix(text, changed, |hrp|);
    assert changed[p] == d && changed[|hrp|] == '1' == text[|hrp|];
  }

  lemma SamePrefix(a: string, b: string, n: nat)
    requires n <= |a| && n <= |b| && a[..n] == b[..n]
    ensures forall i :: 0 <= i < n ==> a[i] == b[i]
  {
    assert forall i :: 0 <= i < n ==> a[..n][i] == a[i] && b[..n][i] == b[i];
  }

  // Replacing one character after the separator leaves the constant, as the version it goes
  // with is either untouched or protected.
  lemma ConstantIsKept(text: string, p: nat, d: char, hrp: string)
    requires DecodeWitness(text, hrp).Ok? && Lower(text) == text && d == LowerChar(d) && d != '1'
    requires LastSeparator(text) < p < |text| && DecodeWitness(text[p := d], hrp).Ok?
    ensures Decode(text).Ok? && Decode(text[p := d]).Ok?
    ensures Decode(text[p := d]).value.spec == Decode(text).value.spec
  {
    hide Decode, DecodeWitness, SymbolOf, Lower, LastSeparator, Symbols, VerifyChecksum;
    DecodedParts(text, hrp);
    DecodedParts(text[p := d], hrp);
    DecodedText(text);
    ReplacedData(text, p, d);
    DecodedText(text[p := d]);
    if p == LastSeparator(text) + 1 {
      VersionIsProtected(text, d, hrp);
    } else {
      assert Decode(text[p := d]).value.data[0] == Decode(text).value.data[0];
    }
  }

  // Any single replaced character of a witness address, be it in the prefix, the separator,
  // the version, the program or the checksum, is detected: no single error turns an address
  // into another one with the same prefix.
  lemma AddressSubstitutionIsDetected(address: string, hrp: string, p: nat, c: char)
    requires DecodeWitness(address, hrp).Ok?
    requires p < |address| && LowerChar(c) != LowerChar(address[p])
    ensures DecodeWitness(address[p := c], hrp).Err?
  {
    hide Decode, DecodeWitness, SymbolOf, CharOf, Symbols, VerifyChecksum, LastSeparator;
    var changed := address[p := c];
    if DecodeWitness(changed, hrp).Ok? {
      var low, d := Lower(address), LowerChar(c);
      assert Lower(changed) == low[p := d];
      DecodedParts(address, hrp);
      DecodedParts(changed, hrp);
      DecodeOfLower(address);
      DecodeOfLower(changed);
      LowerWitness(address, hrp);
      LowerWitness(changed, hrp);
      hide Lower;
      DecodedText(low);
      DecodedText(low[p := d]);
      PrefixStays(low, p, d, hrp);
      SubstitutionIsDetected(address, p, c);
      ConstantIsKept(low, p, d, hrp);
      assert false;
    }
  }
}
