/** The name of the log file of one process, `common/LogFileName.hpp`. */
module LogFileName {
  import opened WideText

  datatype Timestamp = Timestamp(year: nat, month: nat, day: nat,
                                 hour: nat, minute: nat, second: nat)

  const ProgramExtension := ".exe"

  // ----- numbers

  function Digit(value: nat): (c: char)
    ensures '0' <= c <= '9'
  {
    ('0' as int + value % 10) as char
  }

  /** The last digits of a number, the leading zeros included. */
  function Padded(value: nat, digits: nat): (s: string)
    ensures |s| == digits
  {
    if digits == 0 then "" else Padded(value / 10, digits - 1) + [Digit(value)]
  }

  /** `std::to_wstring` */
  function Decimal(value: nat): (s: string)
    ensures |s| > 0
    ensures forall i :: 0 <= i < |s| ==> '0' <= s[i] <= '9'
  {
    if value < 10 then [Digit(value)] else Decimal(value / 10) + [Digit(value)]
  }

  /** `value` after as many divisions by ten. */
  function Shortened(value: nat, times: nat): nat {
    if times == 0 then value else Shortened(value / 10, times - 1)
  }

  lemma {:induction false} ShortenedOnce(value: nat, times: nat)
    ensures Shortened(value, times + 1) == Shortened(value, times) / 10
  {
    if times > 0 {
      ShortenedOnce(value / 10, times - 1);
    }
  }

  lemma {:induction false} PaddedSplit(value: nat, digits: nat, done: nat)
    requires done <= digits
    ensures Padded(value, digits) == Padded(Shortened(value, done), digits - done) + Padded(value, done)
  {
    if done > 0 {
      PaddedSplit(value / 10, digits - 1, done - 1);
      assert Padded(value, digits) == Padded(value / 10, digits - 1) + [Digit(value)];
      assert Padded(value, done) == Padded(value / 10, done - 1) + [Digit(value)];
    }
  }

  lemma PaddedStep(value: nat, digits: nat, index: nat)
    requires index < digits
    ensures Padded(value, index + 1) == [Digit(Shortened(value, index))] + Padded(value, index)
  {
    PaddedSplit(value, index + 1, index);
    assert Padded(Shortened(value, index), 1) == [Digit(Shortened(value, index))];
  }

  lemma NothingDone(value: nat)
    ensures Shortened(value, 0) == value && Padded(value, 0) == ""
  {
  }

  method AppendPaddedNumber(out: string, value: nat, digits: nat) returns (longer: string)
    requires digits <= 10
    ensures longer == out + Padded(value, digits)
  {
    hide Padded, Shortened, Digit;
    var buffer := new char[10];
    var rest := value;
    NothingDone(value);
    for index := 0 to digits
      invariant rest == Shortened(value, index)
      invariant buffer[digits - index..digits] == Padded(value, index)
    {
      PaddedStep(value, digits, index);
      ShortenedOnce(value, index);
      buffer[digits - 1 - index] := Digit(rest);
      rest := rest / 10;
    }
    return out + buffer[..digits];
  }

  // ----- the name of the program

  predicate EndsWithProgram(name: string) {
    |name| > |ProgramExtension|
    && Folded(AsciiFold(), name[|name| - |ProgramExtension|..]) == ProgramExtension
  }

  method EndsWithProgramExtension(name: string) returns (ends: bool)
    ensures ends <==> EndsWithProgram(name)
  {
    var size := |ProgramExtension|;
    if |name| <= size {
      return false;
    }
    ghost var tail := Folded(AsciiFold(), name[|name| - size..]);
    for index := 0 to size
      invariant forall k :: 0 <= k < index ==> tail[k] == ProgramExtension[k]
    {
      var left := name[|name| - size + index];
      if 'A' <= left <= 'Z' {
        left := (left as int - 'A' as int + 'a' as int) as char;
      }
      assert tail[index] == left;
      if left != ProgramExtension[index] {
        return false;
      }
    }
    return true;
  }

  /** One behind the last separator of either kind. */
  function BehindDirectory(path: string): (n: nat)
    ensures n <= |path|
    ensures n > 0 ==> IsSeparator(path[n - 1])
    ensures forall i :: n <= i < |path| ==> !IsSeparator(path[i])
  {
    var (back, slash) := (BehindLast(path, '\\'), BehindLast(path, '/'));
    if back > slash then back else slash
  }

  function StemOf(image_path: string): string {
    var program := image_path[BehindDirectory(image_path)..];
    var bare := if EndsWithProgram(program) then program[..|program| - |ProgramExtension|] else program;
    if bare == "" then "process" else bare
  }

  // ----- the name of the log file

  function Stamp(utc: Timestamp): (s: string)
    ensures |s| == 16
  {
    Padded(utc.year, 4) + Padded(utc.month, 2) + Padded(utc.day, 2) + "T"
    + Padded(utc.hour, 2) + Padded(utc.minute, 2) + Padded(utc.second, 2) + "Z"
  }

  function Named(stem: string, utc: Timestamp, pid: nat): string {
    stem + "." + Stamp(utc) + "." + Decimal(pid) + ".log"
  }

  method LogFileNameOf(image_path: string, utc: Timestamp, pid: nat) returns (file_name: string)
    ensures file_name == Named(StemOf(image_path), utc, pid)
  {
    hide Padded, Decimal, EndsWithProgram, BehindDirectory, Named, StemOf;
    StemSteps(image_path);
    var program := image_path;
    var separator := BehindDirectory(program);
    if separator != 0 {
      program := program[separator..];
    }
    var ends := EndsWithProgramExtension(program);
    if ends {
      program := program[..|program| - |ProgramExtension|];
    }
    if program == "" {
      program := "process";
    }
    file_name := program;
    file_name := file_name + ".";
    file_name := AppendPaddedNumber(file_name, utc.year, 4);
    file_name := AppendPaddedNumber(file_name, utc.month, 2);
    file_name := AppendPaddedNumber(file_name, utc.day, 2);
    file_name := file_name + "T";
    file_name := AppendPaddedNumber(file_name, utc.hour, 2);
    file_name := AppendPaddedNumber(file_name, utc.minute, 2);
    file_name := AppendPaddedNumber(file_name, utc.second, 2);
    file_name := file_name + "Z.";
    file_name := file_name + Decimal(pid);
    file_name := file_name + ".log";
    NameSteps(program, utc, pid);
  }

  lemma StemSteps(image_path: string)
    ensures
      var program := image_path[BehindDirectory(image_path)..];
      var ends := EndsWithProgram(program);
      && (ends ==> |program| > 4)
      && StemOf(image_path) ==
         if ends then program[..|program| - 4] else if program == "" then "process" else program
  {
    hide BehindDirectory;
  }

  lemma NameSteps(stem: string, utc: Timestamp, pid: nat)
    ensures
      stem + "." + Padded(utc.year, 4) + Padded(utc.month, 2) + Padded(utc.day, 2) + "T"
      + Padded(utc.hour, 2) + Padded(utc.minute, 2) + Padded(utc.second, 2) + "Z."
      + Decimal(pid) + ".log" == Named(stem, utc, pid)
  {
    hide Padded, Decimal;
    assert "Z." == "Z" + ".";
    assert Named(stem, utc, pid) == stem + "." + Stamp(utc) + "." + Decimal(pid) + ".log";
  }
}
