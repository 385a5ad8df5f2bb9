/** Wide text, and the case mapping of the C library on it. */
module WideText {

  predicate IsUpper(c: char) {
    'A' <= c <= 'Z'
  }

  predicate IsLower(c: char) {
    'a' <= c <= 'z'
  }

  predicate IsAscii(c: char) {
    c < 128 as char
  }

  function AsciiLower(c: char): char {
    if IsUpper(c) then (c as int + 32) as char else c
  }

  /** What the models rely on of `towlower`: it maps the ASCII characters the way ASCII does, it
      maps no other character to an ASCII one, and mapping twice is mapping once. */
  ghost predicate IsCaseFold(f: char -> char) {
    forall c: char ::
      && (IsAscii(c) ==> f(c) == AsciiLower(c))
      && (!IsAscii(c) ==> !IsAscii(f(c)))
      && f(f(c)) == f(c)
  }

  lemma AsciiLowerFolds()
    ensures IsCaseFold(AsciiLower)
  {
  }

  type CaseFold = f: char -> char | IsCaseFold(f)
    ghost witness (AsciiLowerFolds(); AsciiLower)

  /** The mapping of ASCII letters alone. */
  function AsciiFold(): CaseFold {
    AsciiLowerFolds();
    AsciiLower
  }

  function AsciiUpper(c: char): char {
    if IsLower(c) then (c as int - 32) as char else c
  }

  /** The same of `towupper`. */
  ghost predicate IsCaseRaise(f: char -> char) {
    forall c: char ::
      && (IsAscii(c) ==> f(c) == AsciiUpper(c))
      && (!IsAscii(c) ==> !IsAscii(f(c)))
      && f(f(c)) == f(c)
  }

  lemma AsciiUpperRaises()
    ensures IsCaseRaise(AsciiUpper)
  {
  }

  type CaseRaise = f: char -> char | IsCaseRaise(f)
    ghost witness (AsciiUpperRaises(); AsciiUpper)

  function Folded(f: CaseFold, s: string): (t: string)
    ensures |t| == |s|
    ensures forall i :: 0 <= i < |s| ==> t[i] == f(s[i])
  {
    seq(|s|, i requires 0 <= i < |s| => f(s[i]))
  }

  lemma FoldedTwice(f: CaseFold, s: string)
    ensures Folded(f, Folded(f, s)) == Folded(f, s)
  {
  }

  lemma FoldedConcat(f: CaseFold, a: string, b: string)
    ensures Folded(f, a + b) == Folded(f, a) + Folded(f, b)
  {
  }

  lemma FoldedSlice(f: CaseFold, s: string, lo: nat, hi: nat)
    requires lo <= hi <= |s|
    ensures Folded(f, s[lo..hi]) == Folded(f, s)[lo..hi]
  {
  }

  // ----- finding characters

  predicate IsSeparator(c: char) {
    c == '\\' || c == '/'
  }

  /** `find_last_of(c)`, one behind the position, zero when there is none. */
  function BehindLast(s: string, c: char): (n: nat)
    ensures n <= |s|
    ensures n > 0 ==> s[n - 1] == c
    ensures forall i :: n <= i < |s| ==> s[i] != c
  {
    if s == "" then 0
    else if s[|s| - 1] == c then |s|
    else BehindLast(s[..|s| - 1], c)
  }

  /** `find(c, from)`, the length of the text when there is none. */
  function FirstFrom(s: string, c: char, from: nat): (n: nat)
    requires from <= |s|
    ensures from <= n <= |s|
    ensures n < |s| ==> s[n] == c
    ensures forall i :: from <= i < n ==> s[i] != c
    decreases |s| - from
  {
    if from == |s| || s[from] == c then from else FirstFrom(s, c, from + 1)
  }

  // ----- comparing without case

  method PathsEqual(f: CaseFold, left: string, right: string) returns (equal: bool)
    ensures equal <==> Folded(f, left) == Folded(f, right)
  {
    if |left| != |right| {
      return false;
    }
    for index := 0 to |left|
      invariant forall k :: 0 <= k < index ==> f(left[k]) == f(right[k])
    {
      if f(left[index]) != f(right[index]) {
        assert Folded(f, left)[index] != Folded(f, right)[index];
        return false;
      }
    }
    assert Folded(f, left) == Folded(f, right);
    return true;
  }

  /** The order of a dictionary: the first difference decides, and a text comes before the texts
      it is the beginning of. */
  predicate Before(a: string, b: string) {
    if a == "" || b == "" then a == "" && b != ""
    else a[0] < b[0] || (a[0] == b[0] && Before(a[1..], b[1..]))
  }

  predicate PathLess(f: CaseFold, left: string, right: string) {
    Before(Folded(f, left), Folded(f, right))
  }

  method PathCompare(f: CaseFold, left: string, right: string) returns (less: bool)
    ensures less == Before(Folded(f, left), Folded(f, right))
  {
    var shared := if |left| < |right| then |left| else |right|;
    ghost var l, r := Folded(f, left), Folded(f, right);
    assert l[0..] == l && r[0..] == r;
    for index := 0 to shared
      invariant Before(l, r) == Before(l[index..], r[index..])
    {
      var leftChar, rightChar := f(left[index]), f(right[index]);
      assert l[index..][1..] == l[index + 1..] && r[index..][1..] == r[index + 1..];
      if leftChar != rightChar {
        return leftChar < rightChar;
      }
    }
    return |left| < |right|;
  }

  /** The first difference is at a position where both texts agree in front of it. */
  lemma {:induction false} BeforeExactly(a: string, b: string)
    ensures Before(a, b) <==>
            exists n :: 0 <= n <= |a| && n < |b| && a[..n] == b[..n] && (n < |a| ==> a[n] < b[n])
  {
    if a == "" || b == "" {
      if a == "" && b != "" {
        assert a[..0] == b[..0];
      }
    } else {
      BeforeExactly(a[1..], b[1..]);
      if n :| 0 <= n <= |a| && n < |b| && a[..n] == b[..n] && (n < |a| ==> a[n] < b[n]) {
        if n > 0 {
          assert a[..n][0] == b[..n][0];
          assert a[1..][..n - 1] == a[..n][1..] && b[1..][..n - 1] == b[..n][1..];
        }
      }
      if a[0] < b[0] {
        assert a[..0] == b[..0];
      } else if a[0] == b[0] {
        if n :| 0 <= n <= |a[1..]| && n < |b[1..]| && a[1..][..n] == b[1..][..n]
                && (n < |a[1..]| ==> a[1..][n] < b[1..][n]) {
          assert a[..n + 1] == [a[0]] + a[1..][..n] && b[..n + 1] == [b[0]] + b[1..][..n];
        }
      }
    }
  }

  /** What folding does to the characters of ASCII. */
  lemma FoldsLetters(f: CaseFold, c: char)
    ensures 'A' <= c <= 'Z' ==> f(c) as int == c as int + 0x20
    ensures c < 128 as char && !('A' <= c <= 'Z') ==> f(c) == c
    ensures 'a' <= f(c) <= 'z' <==> 'A' <= c <= 'Z' || 'a' <= c <= 'z'
  {
  }

  /** And what the other mapping does to them. */
  lemma RaisesLetters(f: CaseRaise, c: char)
    ensures 'a' <= c <= 'z' ==> f(c) as int == c as int - 0x20
    ensures c < 128 as char && !('a' <= c <= 'z') ==> f(c) == c
    ensures 'A' <= f(c) <= 'Z' <==> 'A' <= c <= 'Z' || 'a' <= c <= 'z'
  {
  }

  lemma {:induction false} BeforeTransitive(a: string, b: string, c: string)
    requires Before(a, b) && Before(b, c)
    ensures Before(a, c)
  {
    if a != "" && a[0] == b[0] == c[0] {
      BeforeTransitive(a[1..], b[1..], c[1..]);
    }
  }

  lemma {:induction false} BeforeTotal(a: string, b: string)
    ensures a == b <==> !Before(a, b) && !Before(b, a)
    ensures !(Before(a, b) && Before(b, a))
  {
    if a != "" && b != "" && a[0] == b[0] {
      BeforeTotal(a[1..], b[1..]);
      assert a == [a[0]] + a[1..] && b == [b[0]] + b[1..];
    }
  }

  /** What an ordered map demands of its comparison: a strict weak order. Two keys are the same
      key exactly when they are equal without case. */
  lemma PathLessIsStrictWeakOrder(f: CaseFold, a: string, b: string, c: string)
    ensures !PathLess(f, a, a)
    ensures PathLess(f, a, b) && PathLess(f, b, c) ==> PathLess(f, a, c)
    ensures !PathLess(f, a, b) && !PathLess(f, b, a) <==> Folded(f, a) == Folded(f, b)
  {
    var x, y, z := Folded(f, a), Folded(f, b), Folded(f, c);
    BeforeTotal(x, x);
    BeforeTotal(x, y);
    if Before(x, y) && Before(y, z) {
      BeforeTransitive(x, y, z);
    }
  }
}
