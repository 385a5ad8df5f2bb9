/** What the names of log files tell: who wrote the file and when, and which of two files of one
    program is the older one. */
module LogFileNameProperties {
  import opened Outcomes
  import opened WideText
  import opened LogFileName

  // ----- reading numbers

  predicate IsNumber(s: string) {
    forall i :: 0 <= i < |s| ==> '0' <= s[i] <= '9'
  }

  function Number(s: string): nat
    requires IsNumber(s)
  {
    if s == "" then 0 else 10 * Number(s[..|s| - 1]) + (s[|s| - 1] as int - '0' as int)
  }

  /** The value of the last decimal digits of a number. */
  function LastDigits(value: nat, digits: nat): nat {
    if digits == 0 then 0 else 10 * LastDigits(value / 10, digits - 1) + value % 10
  }

  lemma {:induction false} PaddedDigits(value: nat, digits: nat)
    ensures IsNumber(Padded(value, digits))
    ensures Number(Padded(value, digits)) == LastDigits(value, digits)
  {
    if digits > 0 {
      PaddedDigits(value / 10, digits - 1);
      assert Padded(value, digits)[..digits - 1] == Padded(value / 10, digits - 1);
    }
  }

  lemma {:induction false} DecimalIsRead(value: nat)
    ensures Number(Decimal(value)) == value
  {
    var s := Decimal(value);
    if value < 10 {
      assert s[..0] == "" && Number(s[..0]) == 0;
    } else {
      DecimalIsRead(value / 10);
      assert s[..|s| - 1] == Decimal(value / 10);
    }
  }

  lemma OneMoreDigit(value: nat, digits: nat)
    ensures LastDigits(value, digits + 1) == 10 * LastDigits(value / 10, digits) + value % 10
  {
  }

  lemma TwoDigits(value: nat)
    ensures LastDigits(value, 2) == value % 100
  {
    hide LastDigits;
    OneMoreDigit(value, 1);
    OneMoreDigit(value / 10, 0);
    assert LastDigits(value / 10 / 10, 0) == 0 by {
      NoDigit(value / 10 / 10);
    }
    TwoLowest(value);
  }

  lemma NoDigit(value: nat)
    ensures LastDigits(value, 0) == 0
  {
  }

  lemma TwoLowest(value: nat)
    ensures value % 100 == 10 * (value / 10 % 10) + value % 10
  {
  }

  lemma FourLowest(value: nat)
    ensures value % 10000 == 100 * (value / 10 / 10 % 100) + value % 100
  {
    assert value / 10 / 10 == value / 100;
    var q, c, b := value / 100 / 100, value / 100 % 100, value % 100;
    assert value == 10000 * q + (100 * c + b) && 0 <= 100 * c + b < 10000;
  }

  lemma FourDigits(value: nat)
    ensures LastDigits(value, 4) == value % 10000
  {
    hide LastDigits;
    OneMoreDigit(value, 3);
    OneMoreDigit(value / 10, 2);
    TwoDigits(value / 10 / 10);
    TwoLowest(value);
    FourLowest(value);
  }

  /** A padded number depends on its last digits only, and keeps their order. */
  lemma {:induction false} PaddedOrder(a: nat, b: nat, digits: nat)
    ensures Padded(a, digits) == Padded(b, digits) <==> LastDigits(a, digits) == LastDigits(b, digits)
    ensures Before(Padded(a, digits), Padded(b, digits)) <==> LastDigits(a, digits) < LastDigits(b, digits)
  {
    if digits > 0 {
      PaddedOrder(a / 10, b / 10, digits - 1);
      var (x, y) := (Padded(a / 10, digits - 1), Padded(b / 10, digits - 1));
      BeforeConcat(x, [Digit(a)], y, [Digit(b)]);
      assert (x + [Digit(a)])[..digits - 1] == x && (y + [Digit(b)])[..digits - 1] == y;
      assert (x + [Digit(a)])[digits - 1] == Digit(a) && (y + [Digit(b)])[digits - 1] == Digit(b);
      OneBefore(Digit(a), Digit(b));
    }
  }

  lemma OneBefore(a: char, b: char)
    ensures Before([a], [b]) <==> a < b
  {
  }

  lemma {:induction false} BeforeConcat(a: string, x: string, b: string, y: string)
    requires |a| == |b|
    ensures Before(a + x, b + y) <==> Before(a, b) || (a == b && Before(x, y))
  {
    if a == "" {
      assert a + x == x && b + y == y;
    } else {
      assert (a + x)[1..] == a[1..] + x && (b + y)[1..] == b[1..] + y;
      BeforeConcat(a[1..], x, b[1..], y);
      assert a == [a[0]] + a[1..] && b == [b[0]] + b[1..];
    }
  }

  // ----- reading a name

  datatype LogFile = LogFile(stem: string, utc: Timestamp, pid: nat)

  /** What the digits of the name have room for. */
  function Kept(utc: Timestamp): Timestamp {
    Timestamp(utc.year % 10000, utc.month % 100, utc.day % 100,
              utc.hour % 100, utc.minute % 100, utc.second % 100)
  }

  function ReadStamp(s: string): Option<Timestamp>
    requires |s| == 16
  {
    var (date, time) := (s[..8], s[9..15]);
    if IsNumber(date) && s[8] == 'T' && IsNumber(time) && s[15] == 'Z'
    then Some(Timestamp(Number(date[..4]), Number(date[4..6]), Number(date[6..]),
                        Number(time[..2]), Number(time[2..4]), Number(time[4..])))
    else None
  }

  function ReadLogFileName(name: string): Option<LogFile> {
    if |name| < 4 || name[|name| - 4..] != ".log" then None
    else
      var body := name[..|name| - 4];
      var pid := BehindLast(body, '.');
      if pid < 18 || pid == |body| || !IsNumber(body[pid..]) || body[pid - 18] != '.' then None
      else
        match ReadStamp(body[pid - 17..pid - 1])
        case None => None
        case Some(utc) => Some(LogFile(body[..pid - 18], utc, Number(body[pid..])))
  }

  lemma StampIsRead(utc: Timestamp)
    ensures ReadStamp(Stamp(utc)) == Some(Kept(utc))
  {
    hide Number, Padded, LastDigits;
    var s := Stamp(utc);
    PaddedDigits(utc.year, 4);
    PaddedDigits(utc.month, 2);
    PaddedDigits(utc.day, 2);
    PaddedDigits(utc.hour, 2);
    PaddedDigits(utc.minute, 2);
    PaddedDigits(utc.second, 2);
    KeptDigits(utc);
    var (date, time) := (s[..8], s[9..15]);
    assert date == Padded(utc.year, 4) + Padded(utc.month, 2) + Padded(utc.day, 2);
    assert time == Padded(utc.hour, 2) + Padded(utc.minute, 2) + Padded(utc.second, 2);
    assert date[..4] == Padded(utc.year, 4) && date[4..6] == Padded(utc.month, 2)
           && date[6..] == Padded(utc.day, 2);
    assert time[..2] == Padded(utc.hour, 2) && time[2..4] == Padded(utc.minute, 2)
           && time[4..] == Padded(utc.second, 2);
  }

  lemma KeptDigits(utc: Timestamp)
    ensures Kept(utc) == Timestamp(LastDigits(utc.year, 4), LastDigits(utc.month, 2), LastDigits(utc.day, 2),
                                   LastDigits(utc.hour, 2), LastDigits(utc.minute, 2), LastDigits(utc.second, 2))
  {
    hide LastDigits;
    FourDigits(utc.year);
    TwoDigits(utc.month);
    TwoDigits(utc.day);
    TwoDigits(utc.hour);
    TwoDigits(utc.minute);
    TwoDigits(utc.second);
  }

  lemma {:induction false} LastIsBehind(a: string, b: string, c: char)
    requires c !in b
    ensures BehindLast(a + [c] + b, c) == |a| + 1
  {
    var s := a + [c] + b;
    var n := BehindLast(s, c);
    assert s[|a|] == c;
    assert forall i :: |a| < i < |s| ==> s[i] == b[i - (|a| + 1)];
  }

  /** The stem, the time and the process are read back from every name, the time as far as its
      digits have room for it. Dots in the stem do no harm. */
  lemma NameIsRead(stem: string, utc: Timestamp, pid: nat)
    ensures ReadLogFileName(Named(stem, utc, pid)) == Some(LogFile(stem, Kept(utc), pid))
  {
    hide Number, Decimal, ReadStamp, Stamp, BehindLast;
    var name := Named(stem, utc, pid);
    var head := stem + "." + Stamp(utc);
    var body := name[..|name| - 4];
    assert body == head + "." + Decimal(pid);
    LastIsBehind(head, Decimal(pid), '.');
    assert body[|head| + 1..] == Decimal(pid);
    assert body[|stem| + 1..|head|] == Stamp(utc);
    assert body[..|stem|] == stem;
    StampIsRead(utc);
    DecimalIsRead(pid);
  }

  /** The time is recovered exactly when it fits. */
  lemma TimeIsRecoveredExactly(stem: string, utc: Timestamp, pid: nat)
    ensures ReadLogFileName(Named(stem, utc, pid)) == Some(LogFile(stem, utc, pid))
       <==> utc.year < 10000 && utc.month < 100 && utc.day < 100
            && utc.hour < 100 && utc.minute < 100 && utc.second < 100
  {
    hide ReadLogFileName, Named;
    NameIsRead(stem, utc, pid);
  }

  /** Two files share a name exactly when they share the program, the process id and what the
      name tells of the time. */
  lemma NamesAgreeExactly(stem1: string, utc1: Timestamp, pid1: nat, stem2: string, utc2: Timestamp, pid2: nat)
    ensures Named(stem1, utc1, pid1) == Named(stem2, utc2, pid2)
       <==> stem1 == stem2 && Kept(utc1) == Kept(utc2) && pid1 == pid2
  {
    hide ReadLogFileName, Named, Kept;
    NameIsRead(stem1, utc1, pid1);
    NameIsRead(stem2, utc2, pid2);
    if stem1 == stem2 && Kept(utc1) == Kept(utc2) && pid1 == pid2 {
      StampOrder(utc1, utc2);
      SameStamp(stem1, utc1, utc2, pid1);
    }
  }

  lemma SameStamp(stem: string, utc1: Timestamp, utc2: Timestamp, pid: nat)
    requires Stamp(utc1) == Stamp(utc2)
    ensures Named(stem, utc1, pid) == Named(stem, utc2, pid)
  {
  }

  // ----- the order of the names

  predicate Earlier(a: Timestamp, b: Timestamp) {
    a.year < b.year || (a.year == b.year && (
    a.month < b.month || (a.month == b.month && (
    a.day < b.day || (a.day == b.day && (
    a.hour < b.hour || (a.hour == b.hour && (
    a.minute < b.minute || (a.minute == b.minute && a.second < b.second)))))))))
  }

  lemma StampOrder(a: Timestamp, b: Timestamp)
    ensures Stamp(a) == Stamp(b) <==> Kept(a) == Kept(b)
    ensures Before(Stamp(a), Stamp(b)) <==> Earlier(Kept(a), Kept(b))
  {
    hide Padded, LastDigits, Before;
    KeptDigits(a);
    KeptDigits(b);
    var (a6, b6) := (Padded(a.second, 2) + "Z", Padded(b.second, 2) + "Z");
    var (a5, b5) := (Padded(a.minute, 2) + a6, Padded(b.minute, 2) + b6);
    var (a4, b4) := (Padded(a.hour, 2) + a5, Padded(b.hour, 2) + b5);
    var (a3, b3) := (Padded(a.day, 2) + ("T" + a4), Padded(b.day, 2) + ("T" + b4));
    var (a2, b2) := (Padded(a.month, 2) + a3, Padded(b.month, 2) + b3);
    FieldOrder(a.second, "Z", b.second, "Z", 2);
    FieldOrder(a.minute, a6, b.minute, b6, 2);
    FieldOrder(a.hour, a5, b.hour, b5, 2);
    TextOrder("T", a4, b4);
    FieldOrder(a.day, "T" + a4, b.day, "T" + b4, 2);
    FieldOrder(a.month, a3, b.month, b3, 2);
    FieldOrder(a.year, a2, b.year, b2, 4);
    assert Stamp(a) == Padded(a.year, 4) + a2;
    assert Stamp(b) == Padded(b.year, 4) + b2;
    NothingBefore("Z");
  }

  lemma NothingBefore(s: string)
    ensures !Before(s, s)
  {
    BeforeTotal(s, s);
  }

  lemma TextOrder(head: string, x: string, y: string)
    ensures head + x == head + y <==> x == y
    ensures Before(head + x, head + y) <==> Before(x, y)
  {
    BeforeConcat(head, x, head, y);
    NothingBefore(head);
    assert (head + x)[|head|..] == x && (head + y)[|head|..] == y;
  }

  /** A field of fixed width decides, and what follows it decides among equal fields. */
  lemma FieldOrder(a: nat, x: string, b: nat, y: string, digits: nat)
    ensures Padded(a, digits) + x == Padded(b, digits) + y <==>
            LastDigits(a, digits) == LastDigits(b, digits) && x == y
    ensures Before(Padded(a, digits) + x, Padded(b, digits) + y) <==>
            || LastDigits(a, digits) < LastDigits(b, digits)
            || (LastDigits(a, digits) == LastDigits(b, digits) && Before(x, y))
  {
    hide Padded, LastDigits, Before;
    PaddedOrder(a, b, digits);
    var (p, q) := (Padded(a, digits), Padded(b, digits));
    BeforeConcat(p, x, q, y);
    assert (p + x)[..digits] == p && (q + y)[..digits] == q;
    assert (p + x)[digits..] == x && (q + y)[digits..] == y;
  }

  /** The names of the log files of one program sort by time, whatever the process ids. */
  lemma NamesSortByTime(stem: string, utc1: Timestamp, pid1: nat, utc2: Timestamp, pid2: nat)
    requires Kept(utc1) != Kept(utc2)
    ensures Before(Named(stem, utc1, pid1), Named(stem, utc2, pid2)) <==> Earlier(Kept(utc1), Kept(utc2))
  {
    hide Stamp, Decimal, Before, Kept, Earlier;
    StampOrder(utc1, utc2);
    var (x, y) := ("." + Decimal(pid1) + ".log", "." + Decimal(pid2) + ".log");
    BeforeConcat(Stamp(utc1), x, Stamp(utc2), y);
    TextOrder(stem + ".", Stamp(utc1) + x, Stamp(utc2) + y);
    assert Named(stem, utc1, pid1) == stem + "." + (Stamp(utc1) + x);
    assert Named(stem, utc2, pid2) == stem + "." + (Stamp(utc2) + y);
  }

  // ----- the stem

  predicate IsName(s: string) {
    forall i :: 0 <= i < |s| ==> !IsSeparator(s[i])
  }

  lemma CutIsAName(path: string)
    ensures IsName(path[BehindDirectory(path)..])
  {
    var n := BehindDirectory(path);
    assert forall i :: 0 <= i < |path| - n ==> path[n..][i] == path[n + i];
  }

  /** The name of a log file carries no directory. */
  lemma StemIsAName(image_path: string)
    ensures StemOf(image_path) != "" && IsName(StemOf(image_path))
  {
    hide BehindDirectory, EndsWithProgram, StemOf;
    StemSteps(image_path);
    CutIsAName(image_path);
    assert IsName("process");
  }

  /** What the stem is: the text behind the last separator, without one program extension in any
      spelling, and `process` when nothing is left. A file named `.exe` keeps its name. */
  lemma StemExactly(directory: string, name: string)
    requires directory == "" || IsSeparator(directory[|directory| - 1])
    requires IsName(name)
    ensures StemOf(directory + name) ==
            if name == "" then "process"
            else if EndsWithProgram(name) then name[..|name| - 4] else name
  {
    hide BehindLast, EndsWithProgram;
    var path := directory + name;
    var n := BehindDirectory(path);
    assert forall i :: |directory| <= i < |path| ==> path[i] == name[i - |directory|];
    assert directory != "" ==> path[|directory| - 1] == directory[|directory| - 1];
    assert n == |directory|;
    assert path[n..] == name;
    SomethingIsLeft(name);
  }

  lemma SomethingIsLeft(name: string)
    ensures EndsWithProgram(name) ==> |name| > 4
  {
  }

  /** A year of five digits has the name of another year. */
  lemma LongYearIsCut(stem: string, utc: Timestamp, pid: nat)
    ensures Named(stem, utc.(year := 12026), pid) == Named(stem, utc.(year := 2026), pid)
  {
    hide Named;
    NamesAgreeExactly(stem, utc.(year := 12026), pid, stem, utc.(year := 2026), pid);
  }

  /** A name ends like a program when something stands in front of `.exe`, in any case. */
  lemma ExtensionExactly(name: string)
    ensures EndsWithProgram(name) <==>
            |name| > 4 && (var n := |name|;
              name[n - 4] == '.' && name[n - 3] in {'e', 'E'} && name[n - 2] in {'x', 'X'} && name[n - 1] in {'e', 'E'})
  {
    if |name| > 4 {
      var tail := name[|name| - 4..];
      assert ProgramExtension == ['.', 'e', 'x', 'e'];
      assert Folded(AsciiFold(), tail) == [AsciiLower(tail[0]), AsciiLower(tail[1]), AsciiLower(tail[2]), AsciiLower(tail[3])];
    }
  }

  lemma {:induction false} NoLeadingZero(value: nat)
    ensures Decimal(value)[0] == '0' <==> value == 0
  {
    if value >= 10 {
      NoLeadingZero(value / 10);
    }
  }

  /** The name of one log file, in full. */
  lemma OneName()
    ensures Named(StemOf("C:\\a/b.EXE"), Timestamp(2026, 1, 2, 3, 4, 5), 7) == "b.20260102T030405Z.7.log"
  {
    OneStem();
    OneStamp();
    assert Decimal(7) == "7";
    hide StemOf, Stamp, Decimal;
    OneText();
  }

  lemma OneText()
    ensures "b" + "." + "20260102T030405Z" + "." + "7" + ".log" == "b.20260102T030405Z.7.log"
  {
  }

  lemma OneStem()
    ensures StemOf("C:\\a/b.EXE") == "b"
  {
    ExtensionExactly("b.EXE");
    PathText();
    hide EndsWithProgram, StemOf;
    StemExactly("C:\\a/", "b.EXE");
  }

  lemma PathText()
    ensures "C:\\a/" + "b.EXE" == "C:\\a/b.EXE" && "b.EXE"[..1] == "b"
    ensures IsName("b.EXE")
  {
  }

  lemma TwoPadded(value: nat)
    requires value < 100
    ensures Padded(value, 2) == [('0' as int + value / 10) as char, ('0' as int + value % 10) as char]
  {
    assert Padded(value / 10, 1) == Padded(value / 10 / 10, 0) + [Digit(value / 10)];
    assert Padded(value / 10 / 10, 0) == "";
  }

  lemma FourPadded(value: nat)
    requires value < 10000
    ensures Padded(value, 4) == Padded(value / 100, 2) + Padded(value % 100, 2)
  {
    hide LastDigits, Padded, Shortened;
    PaddedSplit(value, 4, 2);
    ShortenedTwice(value);
    PaddedOrder(value, value % 100, 2);
    TwoDigits(value);
    TwoDigits(value % 100);
  }

  lemma ShortenedTwice(value: nat)
    ensures Shortened(value, 2) == value / 100
  {
    assert Shortened(value, 2) == Shortened(value / 10, 1) == Shortened(value / 10 / 10, 0);
    assert value / 10 / 10 == value / 100;
  }

  lemma OneStamp()
    ensures Stamp(Timestamp(2026, 1, 2, 3, 4, 5)) == "20260102T030405Z"
  {
    FourPadded(2026);
    TwoPadded(20);
    TwoPadded(26);
    TwoPadded(1);
    TwoPadded(2);
    TwoPadded(3);
    TwoPadded(4);
    TwoPadded(5);
    hide Padded;
    StampText();
  }

  lemma StampText()
    ensures "20" + "26" + "01" + "02" + "T" + "03" + "04" + "05" + "Z" == "20260102T030405Z"
  {
  }
}
