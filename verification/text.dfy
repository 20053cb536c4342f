/** ASCII case mapping and the period stripping applied to abbreviations. */
module Text {

  predicate IsUpperChar(c: char) {
    'A' <= c <= 'Z'
  }

  predicate IsLowerChar(c: char) {
    'a' <= c <= 'z'
  }

  /** A string with no upper-case ASCII letter. */
  predicate IsLowerCase(s: string) {
    forall i :: 0 <= i < |s| ==> !IsUpperChar(s[i])
  }

  /** A string with no lower-case ASCII letter. */
  predicate IsUpperCase(s: string) {
    forall i :: 0 <= i < |s| ==> !IsLowerChar(s[i])
  }

  /** `str.lower` on one character, restricted to ASCII. */
  function LowerChar(c: char): (d: char)
    ensures !IsUpperChar(d)
    ensures !IsUpperChar(c) ==> d == c
    ensures IsUpperChar(c) ==> IsLowerChar(d) && d as int == c as int + 32
  {
    if IsUpperChar(c) then (c as int + 32) as char else c
  }

  /** `str.upper` on one character, restricted to ASCII. */
  function UpperChar(c: char): (d: char)
    ensures !IsLowerChar(d)
    ensures !IsLowerChar(c) ==> d == c
    ensures IsLowerChar(c) ==> IsUpperChar(d) && d as int == c as int - 32
  {
    if IsLowerChar(c) then (c as int - 32) as char else c
  }

  /** `str.lower`: maps every character on its own, so the length and each position are kept. */
  function Lower(s: string): (r: string)
    ensures |r| == |s|
    ensures forall i :: 0 <= i < |s| ==> r[i] == LowerChar(s[i])
    ensures IsLowerCase(r)
  {
    seq(|s|, i requires 0 <= i < |s| => LowerChar(s[i]))
  }

  /** `str.upper`: maps every character on its own, so the length and each position are kept. */
  function Upper(s: string): (r: string)
    ensures |r| == |s|
    ensures forall i :: 0 <= i < |s| ==> r[i] == UpperChar(s[i])
    ensures IsUpperCase(r)
  {
    seq(|s|, i requires 0 <= i < |s| => UpperChar(s[i]))
  }

  /** `str.replace(".", "")`: every period is dropped and every other character is kept, in order. */
  function StripPeriods(s: string): (r: string)
    ensures '.' !in r
    ensures |r| <= |s|
    ensures forall c :: c != '.' ==> multiset(r)[c] == multiset(s)[c]
  {
    if |s| == 0 then ""
    else
      var init := s[..|s| - 1];
      assert s == init + [s[|s| - 1]];
      if s[|s| - 1] == '.' then StripPeriods(init) else StripPeriods(init) + [s[|s| - 1]]
  }

  /** A string that is already lower case is left alone, so lowering twice is lowering once. */
  lemma LowerOfLowerCase(s: string)
    requires IsLowerCase(s)
    ensures Lower(s) == s
  {
  }

  /** A string without periods is left alone by period stripping. */
  lemma {:induction false} StripPeriodsOfPlain(s: string)
    requires '.' !in s
    ensures StripPeriods(s) == s
  {
    if |s| > 0 {
      assert s == s[..|s| - 1] + [s[|s| - 1]];
      StripPeriodsOfPlain(s[..|s| - 1]);
    }
  }

  /** Stripping works piece by piece, so the kept characters stay in their original order. */
  lemma {:induction false} StripPeriodsAppend(a: string, b: string)
    ensures StripPeriods(a + b) == StripPeriods(a) + StripPeriods(b)
  {
    if |b| > 0 {
      var init := b[..|b| - 1];
      assert (a + b)[..|a + b| - 1] == a + init;
      assert (a + b)[|a + b| - 1] == b[|b| - 1];
      StripPeriodsAppend(a, init);
    } else {
      assert a + b == a;
    }
  }

  /** A single trailing period is the only thing stripped from an otherwise period-free string. */
  lemma StripTrailingPeriod(plain: string)
    requires '.' !in plain
    ensures StripPeriods(plain + ".") == plain
  {
    StripPeriodsAppend(plain, ".");
    StripPeriodsOfPlain(plain);
    assert "."[..0] == "";
  }

  /** Lowering neither creates nor removes periods. */
  lemma LowerKeepsPeriods(s: string)
    ensures '.' in Lower(s) <==> '.' in s
  {
    if '.' in s {
      var i :| 0 <= i < |s| && s[i] == '.';
      assert Lower(s)[i] == '.';
    }
    if '.' in Lower(s) {
      var i :| 0 <= i < |s| && Lower(s)[i] == '.';
      assert s[i] == '.';
    }
  }

  /** Case mapping forgets the case it started from: lowering an upper-cased string is lowering it. */
  lemma LowerOfUpper(s: string)
    ensures Lower(Upper(s)) == Lower(s)
  {
    assert forall i :: 0 <= i < |s| ==> LowerChar(UpperChar(s[i])) == LowerChar(s[i]);
  }

  /** Upper-casing a lowered string is upper-casing it. */
  lemma UpperOfLower(s: string)
    ensures Upper(Lower(s)) == Upper(s)
  {
    assert forall i :: 0 <= i < |s| ==> UpperChar(LowerChar(s[i])) == UpperChar(s[i]);
  }
}
