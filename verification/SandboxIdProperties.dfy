/** Which texts name one sandbox, and what a generated identifier carries. */
module SandboxIdProperties {
  import opened Bitwise
  import opened Outcomes
  import opened WideText
  import opened SandboxId

  function Lowered(s: string): (t: string)
    ensures |t| == |s|
    ensures forall i :: 0 <= i < |s| ==> t[i] == AsciiLower(s[i])
  {
    Folded(AsciiFold(), s)
  }

  // ----- the layout

  lemma DigitsBeforeHitsAll(i: nat)
    requires i < DigitCount
    ensures exists p :: 0 <= p < Length && !HyphenAt(p) && DigitsBefore(p) == i
  {
    var p := if i < 8 then i else if i < 12 then i + 1 else if i < 16 then i + 2 else if i < 20 then i + 3 else i + 4;
    assert !HyphenAt(p) && DigitsBefore(p) == i;
  }

  /** The layout stores the digits and nothing else. */
  lemma DigitsOfFormatted(digits: string)
    requires |digits| == DigitCount
    ensures DigitsOf(Formatted(digits)) == digits
  {
    var back := DigitsOf(Formatted(digits));
    forall i | 0 <= i < DigitCount
      ensures back[i] == digits[i]
    {
      DigitsBeforeHitsAll(i);
    }
  }

  lemma FormattedDigitsOf(text: string)
    requires IsLayout(text)
    ensures Formatted(DigitsOf(text)) == text
  {
    var back := Formatted(DigitsOf(text));
    assert forall p :: 0 <= p < Length ==> back[p] == text[p];
  }

  lemma LayoutAgreesExactly(a: string, b: string)
    requires |a| == |b| == DigitCount
    ensures Formatted(a) == Formatted(b) <==> a == b
  {
    DigitsOfFormatted(a);
    DigitsOfFormatted(b);
  }

  // ----- normalization

  lemma LoweredHex(s: string)
    ensures AllHex(s) <==> AllLowerHex(Lowered(s))
    ensures AllLowerHex(s) ==> Lowered(s) == s
  {
    if AllLowerHex(s) {
      assert Lowered(s) == s;
    }
    if !AllHex(s) {
      var i :| 0 <= i < |s| && !IsHexDigit(s[i]);
      assert !IsLowerHexDigit(Lowered(s)[i]);
    }
  }

  /** What normalization answers is canonical, and normalizing it again changes nothing. */
  lemma NormalizedIsCanonical(text: string)
    requires Normalized(text).Ok?
    ensures IsCanonical(Normalized(text).value)
    ensures Normalized(Normalized(text).value) == Normalized(text)
  {
    hide Formatted, DigitsOf, AllHex, AllLowerHex;
    var digits := Lowered(DigitsOf(text));
    LoweredHex(DigitsOf(text));
    DigitsOfFormatted(digits);
    LoweredHex(digits);
    LoweredTwice(DigitsOf(text));
    assert Normalized(text).value == Formatted(digits);
  }

  lemma LoweredTwice(s: string)
    ensures Lowered(Lowered(s)) == Lowered(s)
  {
    FoldedTwice(AsciiFold(), s);
  }

  /** The canonical texts are the fixed points. */
  lemma CanonicalExactly(text: string)
    ensures IsCanonical(text) <==> Normalized(text) == Ok(text)
  {
    hide Formatted, DigitsOf, AllHex, AllLowerHex;
    if IsCanonical(text) {
      LoweredHex(DigitsOf(text));
      FormattedDigitsOf(text);
    }
    if Normalized(text) == Ok(text) {
      NormalizedIsCanonical(text);
    }
  }

  /** Two spellings name one sandbox exactly when their digits agree without case. */
  lemma SpellingsAgreeExactly(a: string, b: string)
    requires IsSpelling(a) && IsSpelling(b)
    ensures Normalized(a) == Normalized(b) <==> Lowered(DigitsOf(a)) == Lowered(DigitsOf(b))
  {
    hide Formatted, DigitsOf, AllHex;
    LayoutAgreesExactly(Lowered(DigitsOf(a)), Lowered(DigitsOf(b)));
  }

  lemma LoweredDigits(text: string)
    requires |text| == Length || |text| == DigitCount
    ensures DigitsOf(Lowered(text)) == Lowered(DigitsOf(text))
  {
    hide DigitsOf, Lowered;
    var (x, y) := (DigitsOf(Lowered(text)), Lowered(DigitsOf(text)));
    forall i | 0 <= i < DigitCount
      ensures x[i] == y[i]
    {
      DigitsBeforeHitsAll(i);
    }
  }

  lemma LoweredLayout(text: string)
    ensures IsLayout(Lowered(text)) <==> IsLayout(text)
  {
    if IsLayout(Lowered(text)) {
      forall p | 0 <= p < Length && HyphenAt(p)
        ensures text[p] == '-'
      {
        assert Lowered(text)[p] == '-';
      }
    }
  }

  /** The spellings of one identifier are its canonical form and its bare digits, in any case,
      and no other text. */
  lemma SpellingsExactly(text: string, id: string)
    requires IsCanonical(id)
    ensures Normalized(text) == Ok(id) <==> Lowered(text) == id || Lowered(text) == DigitsOf(id)
  {
    hide Formatted, DigitsOf, AllHex, AllLowerHex, IsLayout, Lowered;
    FormattedDigitsOf(id);
    BareDigits(id);
    BareDigits(text);
    BareDigits(Lowered(text));
    if |text| == Length || |text| == DigitCount {
      var digits := Lowered(DigitsOf(text));
      LoweredDigits(text);
      LoweredLayout(text);
      LoweredHex(DigitsOf(text));
      DigitsOfFormatted(digits);
      if IsLayout(text) {
        FormattedDigitsOf(Lowered(text));
      }
      NormalizedAs(text);
    }
  }

  lemma BareDigits(text: string)
    ensures |text| == DigitCount ==> DigitsOf(text) == text
    ensures IsLayout(text) ==> |text| == Length
  {
  }

  lemma NormalizedAs(text: string)
    ensures Normalized(text) ==
            if IsSpelling(text) then Ok(Formatted(Lowered(DigitsOf(text)))) else Failed(InvalidArgument)
  {
  }

  // ----- generation

  predicate IsVariant(c: char) {
    c == '8' || c == '9' || c == 'a' || c == 'b'
  }

  /** The fields of a random UUID: the version is 4, and the two highest bits of the variant are
      `10`. */
  predicate IsRandomUuid(id: string) {
    IsCanonical(id) && id[14] == '4' && IsVariant(id[19])
  }

  lemma HexDigitsAreLower(n: nat)
    requires n < |HexDigits|
    ensures IsLowerHexDigit(HexDigits[n])
    ensures 8 <= n < 12 <==> IsVariant(HexDigits[n])
  {
  }

  function DigitValue(c: char): (n: nat)
    requires IsLowerHexDigit(c)
    ensures n < |HexDigits| && HexDigits[n] == c
    ensures IsVariant(c) ==> 8 <= n < 12
  {
    if c <= '9' then c as int - '0' as int else c as int - 'a' as int + 10
  }

  /** Every run of the generator answers a random UUID. */
  lemma GeneratedIsRandomUuid(draws: seq<nat>)
    requires IsDrawn(draws)
    ensures IsRandomUuid(Formatted(GeneratedDigits(draws)))
  {
    hide Formatted, DigitsOf, GeneratedDigits;
    var digits := GeneratedDigits(draws);
    DigitsOfFormatted(digits);
    assert DigitsBefore(14) == VersionDigit && DigitsBefore(19) == VariantDigit;
    forall i | 0 <= i < DigitCount
      ensures IsLowerHexDigit(digits[i])
    {
      HexDigitsAreLower(draws[i]);
      HexDigitsAreLower(8 + draws[DigitCount] % 4);
    }
    HexDigitsAreLower(8 + draws[DigitCount] % 4);
  }

  /** If the draws were free, every random UUID would be the answer of some. */
  lemma FreeDrawsReachEveryUuid(id: string) returns (draws: seq<nat>)
    requires IsRandomUuid(id)
    ensures IsDrawn(draws) && Formatted(GeneratedDigits(draws)) == id
  {
    hide Formatted, DigitsOf, GeneratedDigits;
    var digits := DigitsOf(id);
    assert DigitsBefore(14) == VersionDigit && DigitsBefore(19) == VariantDigit;
    draws := seq(DigitCount, i requires 0 <= i < DigitCount => DigitValue(digits[i]))
             + [DigitValue(digits[VariantDigit]) - 8];
    assert GeneratedDigits(draws) == digits;
    FormattedDigitsOf(id);
  }

  /** Two runs answer one identifier exactly when they agree on the thirty free digits and on the
      two free bits of the variant. */
  lemma GeneratedAgreeExactly(a: seq<nat>, b: seq<nat>)
    requires IsDrawn(a) && IsDrawn(b)
    ensures Formatted(GeneratedDigits(a)) == Formatted(GeneratedDigits(b))
       <==> a[DigitCount] % 4 == b[DigitCount] % 4
            && (forall i :: 0 <= i < DigitCount && i != VersionDigit && i != VariantDigit ==> a[i] == b[i])
  {
    hide Formatted, GeneratedDigits;
    var (x, y) := (GeneratedDigits(a), GeneratedDigits(b));
    LayoutAgreesExactly(x, y);
    if x == y {
      HexDigitsDiffer(8 + a[DigitCount] % 4, 8 + b[DigitCount] % 4);
      forall i | 0 <= i < DigitCount && i != VersionDigit && i != VariantDigit
        ensures a[i] == b[i]
      {
        assert x[i] == HexDigits[a[i]] && y[i] == HexDigits[b[i]];
        HexDigitsDiffer(a[i], b[i]);
      }
    }
  }

  // ----- the identifiers one seed word reaches

  function IdOf(generator: Generator, seed: uint32): string
    requires IsDrawn(generator(seed))
  {
    Formatted(GeneratedDigits(generator(seed)))
  }

  ghost function IdsBelow(generator: Generator, n: nat): set<string>
    requires Draws(generator) && n <= 0x1_0000_0000
  {
    set seed: nat | seed < n :: IdOf(generator, seed)
  }

  lemma {:induction false} FewIds(generator: Generator, n: nat)
    requires Draws(generator) && n <= 0x1_0000_0000
    ensures |IdsBelow(generator, n)| <= n
  {
    hide IdOf;
    if n == 0 {
      assert IdsBelow(generator, n) == {};
    } else {
      FewIds(generator, n - 1);
      assert IdsBelow(generator, n) == IdsBelow(generator, n - 1) + {IdOf(generator, n - 1)};
    }
  }

  /** The lowest digits of a number, the lowest first. */
  function LowDigits(n: nat, count: nat): (digits: seq<nat>)
    ensures |digits| == count
    ensures forall i :: 0 <= i < count ==> digits[i] < |HexDigits|
  {
    if count == 0 then [] else [n % 16] + LowDigits(n / 16, count - 1)
  }

  lemma {:induction false} LowDigitsDiffer(m: nat, n: nat, count: nat)
    requires m < Pow2(4 * count) && n < Pow2(4 * count) && LowDigits(m, count) == LowDigits(n, count)
    ensures m == n
  {
    if count > 0 {
      var k := 4 * (count - 1);
      assert Pow2(4 * count) == 2 * Pow2(k + 3) == 4 * Pow2(k + 2) == 8 * Pow2(k + 1) == 16 * Pow2(k);
      assert LowDigits(m, count)[0] == m % 16 && LowDigits(n, count)[0] == n % 16;
      assert LowDigits(m, count)[1..] == LowDigits(m / 16, count - 1);
      assert LowDigits(n, count)[1..] == LowDigits(n / 16, count - 1);
      LowDigitsDiffer(m / 16, n / 16, count - 1);
    }
  }

  /** Draws that number random UUIDs by their first nine digits. */
  function Numbered(n: nat): (draws: seq<nat>)
    ensures IsDrawn(draws) && draws[..9] == LowDigits(n, 9)
  {
    LowDigits(n, 9) + seq(24, i => 0)
  }

  lemma NumberedDiffer(m: nat, n: nat)
    requires m <= 0x1_0000_0000 && n <= 0x1_0000_0000
    requires NumberedId(m) == NumberedId(n)
    ensures m == n
  {
    hide Formatted, GeneratedDigits, Numbered, LowDigits;
    GeneratedAgreeExactly(Numbered(m), Numbered(n));
    assert Numbered(m)[..9] == Numbered(n)[..9];
    SpaceForNumbers(9);
    LowDigitsDiffer(m, n, 9);
  }

  lemma SpaceForNumbers(count: nat)
    requires count == 9
    ensures Pow2(4 * count) > 0x1_0000_0000
  {
    Pow2Values();
    var n := 4 * count;
    assert Pow2(n) == 2 * Pow2(n - 1) == 4 * Pow2(n - 2) == 8 * Pow2(n - 3);
  }

  function NumberedId(n: nat): string {
    Formatted(GeneratedDigits(Numbered(n)))
  }

  ghost function NumberedIds(n: nat): set<string> {
    set i: nat | i < n :: NumberedId(i)
  }

  lemma OneMoreId(n: nat)
    ensures NumberedIds(n + 1) == NumberedIds(n) + {NumberedId(n)}
    ensures NumberedIds(0) == {}
  {
    hide NumberedId;
  }

  lemma NewId(n: nat)
    requires n < 0x1_0000_0001
    ensures NumberedId(n) !in NumberedIds(n)
  {
    if i: nat :| i < n && NumberedId(i) == NumberedId(n) {
      NumberedDiffer(i, n);
    }
    hide NumberedId;
  }

  lemma {:induction false} ManyIds(n: nat)
    requires n <= 0x1_0000_0001
    ensures |NumberedIds(n)| == n
  {
    hide NumberedId, NumberedIds;
    if n == 0 {
      OneMoreId(0);
    } else {
      ManyIds(n - 1);
      OneMoreId(n - 1);
      NewId(n - 1);
    }
  }

  lemma SubsetIsSmaller(a: set<string>, b: set<string>)
    requires a <= b
    ensures |a| <= |b|
  {
    assert b == a + (b - a);
  }

  /** Whatever the generator, one seed word is too little for the 122 free bits: some random UUID is
      the identifier of no run. */
  lemma SomeUuidIsNeverGenerated(generator: Generator) returns (id: string)
    requires Draws(generator)
    ensures IsRandomUuid(id)
    ensures forall seed: uint32 :: IdOf(generator, seed) != id
  {
    hide IdOf, Formatted, GeneratedDigits, Numbered, IsRandomUuid;
    var reached, numbered := IdsBelow(generator, 0x1_0000_0000), NumberedIds(0x1_0000_0001);
    FewIds(generator, 0x1_0000_0000);
    ManyIds(0x1_0000_0001);
    if numbered <= reached {
      SubsetIsSmaller(numbered, reached);
    }
    id :| id in numbered && id !in reached;
    var n: nat :| n < 0x1_0000_0001 && NumberedId(n) == id;
    GeneratedIsRandomUuid(Numbered(n));
    assert forall seed: uint32 :: IdOf(generator, seed) in reached;
  }

  lemma HexDigitsDiffer(m: nat, n: nat)
    requires m < |HexDigits| && n < |HexDigits|
    ensures HexDigits[m] == HexDigits[n] ==> m == n
  {
    assert forall k {:trigger HexDigits[k]} :: 0 <= k < |HexDigits| ==>
      HexDigits[k] == if k < 10 then (48 + k) as char else (87 + k) as char;
  }

  // ----- the control pipe

  /** Two texts lead to one control pipe exactly when they are spellings of one identifier. */
  lemma PipesAgreeExactly(a: string, b: string)
    requires IsSpelling(a) && IsSpelling(b)
    ensures PipeName(Normalized(a).value).Ok? && PipeName(Normalized(b).value).Ok?
    ensures PipeName(Normalized(a).value) == PipeName(Normalized(b).value)
       <==> Lowered(DigitsOf(a)) == Lowered(DigitsOf(b))
  {
    hide Normalized, DigitsOf, Lowered, IsCanonical;
    SpellingIsNormalized(a);
    SpellingIsNormalized(b);
    SpellingsAgreeExactly(a, b);
    NormalizedIsCanonical(a);
    NormalizedIsCanonical(b);
    PipeNameIsRead(Normalized(a).value);
    PipeNameIsRead(Normalized(b).value);
  }

  lemma SpellingIsNormalized(text: string)
    ensures Normalized(text).Ok? <==> IsSpelling(text)
  {
  }

  lemma PipeNameIsRead(id: string)
    requires IsCanonical(id)
    ensures PipeName(id).Ok? && PipeName(id).value[|PipePrefix|..] == id
  {
  }

  /** A pipe name is the fixed folder and name with the identifier behind it, and there is one exactly
      for the identifiers that are their own normal form. */
  lemma PipeNameExactly(id: string)
    ensures PipeName(id) ==
            if Normalized(id) == Ok(id) then Ok("\\\\.\\pipe\\appbox_" + id) else Failed(InvalidArgument)
  {
    hide Normalized, IsCanonical;
    CanonicalExactly(id);
  }

  /** What is refused is refused as an invalid argument: every text that is neither 32 digits nor the
      layout with 32 digits, in any case. */
  lemma RefusedExactly(text: string)
    ensures Normalized(text) == Failed(InvalidArgument) <==>
            !(|text| == 32 && AllDigits(text))
            && !(|text| == 36 && text[8] == '-' && text[13] == '-' && text[18] == '-' && text[23] == '-'
                 && AllDigits(text[..8]) && AllDigits(text[9..13]) && AllDigits(text[14..18])
                 && AllDigits(text[19..23]) && AllDigits(text[24..]))
  {
    DigitsLiterally();
    if |text| == 36 {
      var d := DigitsOf(text);
      assert d == text[..8] + text[9..13] + text[14..18] + text[19..23] + text[24..];
      AllHexSum(text[..8] + text[9..13] + text[14..18] + text[19..23], text[24..]);
      AllHexSum(text[..8] + text[9..13] + text[14..18], text[19..23]);
      AllHexSum(text[..8] + text[9..13], text[14..18]);
      AllHexSum(text[..8], text[9..13]);
    }
    hide DigitsOf, AllHex, AllDigits;
  }

  predicate AllDigits(s: string) {
    forall i :: 0 <= i < |s| ==> '0' <= s[i] <= '9' || 'a' <= s[i] <= 'f' || 'A' <= s[i] <= 'F'
  }

  lemma DigitsLiterally()
    ensures forall s :: AllHex(s) <==> AllDigits(s)
  {
  }

  lemma AllHexSum(a: string, b: string)
    ensures AllHex(a + b) <==> AllHex(a) && AllHex(b)
  {
    assert forall i :: 0 <= i < |a| ==> (a + b)[i] == a[i];
    assert forall i :: 0 <= i < |b| ==> (a + b)[|a| + i] == b[i];
  }
}
