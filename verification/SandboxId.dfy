/** The identifier of a sandbox, `common/SandboxId.hpp`: a UUID in the text form of RFC 4122. */
module SandboxId {
  import opened Bitwise
  import opened Outcomes
  import opened WideText

  const Length := 36
  const DigitCount := 32
  const HyphenPositions := [8, 13, 18, 23]
  const HexDigits := "0123456789abcdef"
  const PipePrefix := "\\\\.\\pipe\\appbox_"
  const VersionDigit := 12
  const VariantDigit := 16

  predicate IsLowerHexDigit(c: char) {
    '0' <= c <= '9' || 'a' <= c <= 'f'
  }

  predicate IsHexDigit(c: char) {
    IsLowerHexDigit(c) || 'A' <= c <= 'F'
  }

  predicate AllHex(s: string) {
    forall i :: 0 <= i < |s| ==> IsHexDigit(s[i])
  }

  predicate AllLowerHex(s: string) {
    forall i :: 0 <= i < |s| ==> IsLowerHexDigit(s[i])
  }

  // ----- the layout

  predicate HyphenAt(position: nat) {
    position == 8 || position == 13 || position == 18 || position == 23
  }

  /** Digits in front of a position of the layout. */
  function DigitsBefore(position: nat): (n: nat)
    ensures n <= position
  {
    if position <= 8 then position
    else if position <= 13 then position - 1
    else if position <= 18 then position - 2
    else if position <= 23 then position - 3
    else position - 4
  }

  predicate IsLayout(text: string) {
    |text| == Length && forall p :: 0 <= p < Length && HyphenAt(p) ==> text[p] == '-'
  }

  function Formatted(digits: string): (text: string)
    requires |digits| == DigitCount
    ensures IsLayout(text)
    ensures forall p :: 0 <= p < Length && !HyphenAt(p) ==> text[p] == digits[DigitsBefore(p)]
  {
    digits[..8] + "-" + digits[8..12] + "-" + digits[12..16] + "-" + digits[16..20] + "-" + digits[20..]
  }

  /** The digits of a text of either length. */
  function DigitsOf(text: string): (digits: string)
    requires |text| == Length || |text| == DigitCount
    ensures |digits| == DigitCount
    ensures |text| == DigitCount ==> digits == text
    ensures |text| == Length ==>
              forall p :: 0 <= p < Length && !HyphenAt(p) ==> digits[DigitsBefore(p)] == text[p]
  {
    if |text| == DigitCount then text
    else text[..8] + text[9..13] + text[14..18] + text[19..23] + text[24..]
  }

  method IsHyphenPosition(position: nat) returns (hyphen: bool)
    ensures hyphen == HyphenAt(position)
  {
    for index := 0 to |HyphenPositions|
      invariant forall k :: 0 <= k < index ==> HyphenPositions[k] != position
    {
      if HyphenPositions[index] == position {
        return true;
      }
    }
    assert HyphenPositions[0] == 8 && HyphenPositions[1] == 13
           && HyphenPositions[2] == 18 && HyphenPositions[3] == 23;
    return false;
  }

  method FormatDigits(digits: string) returns (text: string)
    requires |digits| == DigitCount
    ensures text == Formatted(digits)
  {
    hide Formatted;
    ghost var all := Formatted(digits);
    text := "";
    var digit := 0;
    for position := 0 to Length
      invariant digit == DigitsBefore(position)
      invariant |text| == position && forall p :: 0 <= p < position ==> text[p] == all[p]
    {
      var hyphen := IsHyphenPosition(position);
      if hyphen {
        text := text + ['-'];
      } else {
        text := text + [digits[digit]];
        digit := digit + 1;
      }
    }
    assert text == all;
  }

  // ----- reading an identifier

  /** The canonical form: the layout, and lower case digits in it. */
  predicate IsCanonical(text: string) {
    IsLayout(text) && AllLowerHex(DigitsOf(text))
  }

  /** The two spellings which are accepted. */
  predicate IsSpelling(text: string) {
    (|text| == DigitCount || IsLayout(text)) && AllHex(DigitsOf(text))
  }

  function Normalized(text: string): Expected<string> {
    if IsSpelling(text) then Ok(Formatted(Folded(AsciiFold(), DigitsOf(text)))) else Failed(InvalidArgument)
  }

  method IsValidSandboxId(text: string) returns (valid: bool)
    ensures valid == IsCanonical(text)
  {
    hide DigitsOf;
    if |text| != Length {
      return false;
    }
    ghost var digits := DigitsOf(text);
    for position := 0 to |text|
      invariant forall p :: 0 <= p < position && HyphenAt(p) ==> text[p] == '-'
      invariant forall i :: 0 <= i < DigitsBefore(position) ==> IsLowerHexDigit(digits[i])
    {
      var hyphen := IsHyphenPosition(position);
      if hyphen {
        if text[position] != '-' {
          return false;
        }
      } else if !IsLowerHexDigit(text[position]) {
        assert !IsLowerHexDigit(digits[DigitsBefore(position)]);
        return false;
      }
    }
    return true;
  }

  method NormalizeSandboxId(text: string) returns (r: Expected<string>)
    ensures r == Normalized(text)
  {
    hide Formatted, DigitsOf;
    var withHyphens := |text| == Length;
    if !withHyphens && |text| != DigitCount {
      return Failed(InvalidArgument);
    }
    ghost var all := DigitsOf(text);
    var digits := "";
    for position := 0 to |text|
      invariant |digits| == if withHyphens then DigitsBefore(position) else position
      invariant withHyphens ==> forall p :: 0 <= p < position && HyphenAt(p) ==> text[p] == '-'
      invariant forall i :: 0 <= i < |digits| ==> IsHexDigit(all[i]) && digits[i] == AsciiLower(all[i])
    {
      var character := text[position];
      var hyphen := IsHyphenPosition(position);
      if withHyphens && hyphen {
        if character != '-' {
          return Failed(InvalidArgument);
        }
      } else {
        assert all[|digits|] == character;
        if !IsHexDigit(character) {
          return Failed(InvalidArgument);
        }
        digits := digits + [AsciiLower(character)];
      }
    }
    assert digits == Folded(AsciiFold(), all);
    var formatted := FormatDigits(digits);
    return Ok(formatted);
  }

  // ----- generating an identifier

  /** The numbers the distribution answers in one run: one for every digit, and one for the
      variant. */
  predicate IsDrawn(draws: seq<nat>) {
    |draws| == DigitCount + 1 && forall i :: 0 <= i < |draws| ==> draws[i] < |HexDigits|
  }

  /** The numbers a run draws from its generator, which one word of the random device seeds. */
  type Generator = uint32 -> seq<nat>

  ghost predicate Draws(generator: Generator) {
    forall seed: uint32 :: IsDrawn(generator(seed))
  }

  function GeneratedDigits(draws: seq<nat>): (digits: string)
    requires IsDrawn(draws)
    ensures |digits| == DigitCount
    ensures digits[VersionDigit] == '4'
    ensures digits[VariantDigit] == HexDigits[8 + draws[DigitCount] % 4]
    ensures forall i :: 0 <= i < DigitCount && i != VersionDigit && i != VariantDigit ==> digits[i] == HexDigits[draws[i]]
  {
    var drawn := seq(DigitCount, i requires 0 <= i < DigitCount => HexDigits[draws[i]]);
    drawn[VersionDigit := '4'][VariantDigit := HexDigits[8 + draws[DigitCount] % 4]]
  }

  method GenerateSandboxId(generator: Generator, device: uint32) returns (id: string)
    requires IsDrawn(generator(device))
    ensures id == Formatted(GeneratedDigits(generator(device)))
  {
    var draws := generator(device);
    var digits := "";
    for index := 0 to DigitCount
      invariant |digits| == index
      invariant forall i :: 0 <= i < index ==> digits[i] == HexDigits[draws[i]]
    {
      digits := digits + [HexDigits[draws[index]]];
    }
    digits := digits[VersionDigit := '4'];
    digits := digits[VariantDigit := HexDigits[8 + draws[DigitCount] % 4]];
    assert digits == GeneratedDigits(draws);
    id := FormatDigits(digits);
  }

  // ----- the control pipe

  function PipeName(id: string): Expected<string> {
    if IsCanonical(id) then Ok(PipePrefix + id) else Failed(InvalidArgument)
  }

  method SandboxPipeName(id: string) returns (r: Expected<string>)
    ensures r == PipeName(id)
  {
    var valid := IsValidSandboxId(id);
    if !valid {
      return Failed(InvalidArgument);
    }
    var name := PipePrefix;
    name := name + id;
    return Ok(name);
  }
}
