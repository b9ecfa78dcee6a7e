/** Character classes and string operations shared by the two endpoints and
    the memories page: ASCII lower-casing, the text after the last occurrence
    of a character, `String.prototype.split` on one character, and the
    decimal rendering of a number in a template literal. */
module Text {

  predicate IsDigit(c: char) { '0' <= c <= '9' }

  predicate IsAsciiLetter(c: char) { 'a' <= c <= 'z' || 'A' <= c <= 'Z' }

  /** The class `[a-zA-Z0-9]` of a regular expression. */
  predicate IsAlnum(c: char) { IsDigit(c) || IsAsciiLetter(c) }

  /** `toLowerCase` on one character, for the ASCII range. */
  function LowerChar(c: char): (d: char)
    ensures 'A' <= c <= 'Z' ==> 'a' <= d <= 'z' && d as int == c as int + 32
    ensures !('A' <= c <= 'Z') ==> d == c
  {
    if 'A' <= c <= 'Z' then (c as int + 32) as char else c
  }

  function Lower(s: string): (r: string)
    ensures |r| == |s|
    ensures forall i :: 0 <= i < |s| ==> r[i] == LowerChar(s[i])
  {
    seq(|s|, i requires 0 <= i < |s| => LowerChar(s[i]))
  }

  /** Lower-casing keeps the class of every character that is not an
      upper-case letter: a lower-cased character is a dot, a slash, a digit
      or a letter exactly when the original one was. */
  lemma LowerCharKeepsClass(c: char)
    ensures LowerChar(c) == '.' <==> c == '.'
    ensures LowerChar(c) == '/' <==> c == '/'
    ensures IsAlnum(LowerChar(c)) <==> IsAlnum(c)
  {
  }

  lemma LowerSlice(s: string, i: nat, j: nat)
    requires i <= j <= |s|
    ensures Lower(s[i..j]) == Lower(s)[i..j]
  {
  }

  /** The longest suffix of `s` that does not contain `c`: everything after
      the last `c`, or all of `s` when `c` does not occur. */
  function AfterLast(s: string, c: char): (r: string)
    ensures c !in r
    ensures |r| <= |s| && r == s[|s| - |r|..]
    ensures |r| < |s| ==> s[|s| - |r| - 1] == c
    decreases |s|
  {
    if s == [] || s[|s| - 1] == c then []
    else AfterLast(s[..|s| - 1], c) + [s[|s| - 1]]
  }

  /** `AfterLast` is the only suffix free of `c` that is either all of `s`
      or preceded by `c`. */
  lemma AfterLastUnique(s: string, c: char, r: string)
    requires c !in r
    requires |r| <= |s| && r == s[|s| - |r|..]
    requires |r| < |s| ==> s[|s| - |r| - 1] == c
    ensures r == AfterLast(s, c)
  {
  }

  lemma AfterLastAbsent(s: string, c: char)
    requires c !in s
    ensures AfterLast(s, c) == s
  {
    AfterLastUnique(s, c, s);
  }

  /** Whatever comes before the last `c` is irrelevant. */
  lemma AfterLastOfJoin(a: string, c: char, b: string)
    requires c !in b
    ensures AfterLast(a + [c] + b, c) == b
  {
    var s := a + [c] + b;
    assert s[|s| - |b|..] == b;
    AfterLastUnique(s, c, b);
  }

  lemma AfterLastLower(s: string, c: char)
    requires c == '.' || c == '/'
    ensures AfterLast(Lower(s), c) == Lower(AfterLast(s, c))
  {
    LowerOfLastSegment(s, c, AfterLast(s, c));
  }

  /** Lower-casing keeps the three properties that characterise the text
      after the last `c`, for any `a` that has them. */
  lemma LowerOfLastSegment(s: string, c: char, a: string)
    requires c == '.' || c == '/'
    requires c !in a
    requires |a| <= |s| && a == s[|s| - |a|..]
    requires |a| < |s| ==> s[|s| - |a| - 1] == c
    ensures AfterLast(Lower(s), c) == Lower(a)
  {
    var r := Lower(a);
    forall k | 0 <= k < |a| ensures r[k] != c { LowerCharKeepsClass(a[k]); }
    LowerSlice(s, |s| - |a|, |s|);
    if |a| < |s| { LowerCharKeepsClass(s[|s| - |a| - 1]); }
    AfterLastUnique(Lower(s), c, r);
  }

  /** `s` without the run of `/` characters at its end. */
  function StripTrailingSlashes(s: string): (r: string)
    ensures |r| <= |s| && r == s[..|r|]
    ensures r == [] || r[|r| - 1] != '/'
    ensures forall i :: |r| <= i < |s| ==> s[i] == '/'
    decreases |s|
  {
    if s != [] && s[|s| - 1] == '/' then StripTrailingSlashes(s[..|s| - 1]) else s
  }

  lemma {:induction false} StripTrailingSlashesLower(s: string)
    ensures StripTrailingSlashes(Lower(s)) == Lower(StripTrailingSlashes(s))
    decreases |s|
  {
    if s != [] {
      LowerCharKeepsClass(s[|s| - 1]);
      if s[|s| - 1] == '/' {
        assert Lower(s)[..|s| - 1] == Lower(s[..|s| - 1]);
        StripTrailingSlashesLower(s[..|s| - 1]);
      }
    }
  }

  /** `s.split(c)` for a one-character separator: the pieces between the
      occurrences of `c`; there is always at least one piece. */
  function Split(s: string, c: char): (parts: seq<string>)
    ensures |parts| >= 1
    ensures forall k :: 0 <= k < |parts| ==> c !in parts[k]
    decreases |s|
  {
    if s == [] then [[]]
    else if s[0] == c then [[]] + Split(s[1..], c)
    else
      var rest := Split(s[1..], c);
      [[s[0]] + rest[0]] + rest[1..]
  }

  /** Joining the pieces back with `c` gives the original text. */
  function Join(parts: seq<string>, c: char): string
    requires |parts| >= 1
    decreases |parts|
  {
    if |parts| == 1 then parts[0] else parts[0] + [c] + Join(parts[1..], c)
  }

  lemma {:induction false} JoinSplit(s: string, c: char)
    ensures Join(Split(s, c), c) == s
    decreases |s|
  {
    if s != [] {
      JoinSplit(s[1..], c);
      var rest := Split(s[1..], c);
      if s[0] != c {
        if |rest| == 1 {
          assert Join(rest, c) == rest[0];
        } else {
          assert ([[s[0]] + rest[0]] + rest[1..])[1..] == rest[1..];
        }
      } else {
        assert ([[]] + rest)[1..] == rest;
      }
    }
  }

  /** Without a separator there is one piece: the whole text. */
  lemma {:induction false} SplitAbsent(s: string, c: char)
    requires c !in s
    ensures Split(s, c) == [s]
    decreases |s|
  {
    if s != [] {
      assert c !in s[1..] by {
        forall k | 0 <= k < |s| - 1 ensures s[1..][k] != c { assert s[1..][k] == s[k + 1]; }
      }
      SplitAbsent(s[1..], c);
      assert s[0] != c;
      assert [s[0]] + s[1..] == s;
    }
  }

  /** How the last piece of `s` relates to the last piece of `s[1..]`. */
  lemma SplitLastStep(s: string, c: char)
    requires s != []
    ensures var rest := Split(s[1..], c);
      Split(s, c)[|Split(s, c)| - 1] == if s[0] != c && |rest| == 1 then s else rest[|rest| - 1]
  {
    var rest := Split(s[1..], c);
    if s[0] == c {
      assert Split(s, c) == [[]] + rest;
    } else {
      var parts := [[s[0]] + rest[0]] + rest[1..];
      assert Split(s, c) == parts;
      if |rest| == 1 {
        SplitSingle(s[1..], c);
        assert parts[0] == s;
      } else {
        assert parts[|parts| - 1] == rest[|rest| - 1];
      }
    }
  }

  /** A text that splits into one piece is that piece. */
  lemma SplitSingle(s: string, c: char)
    requires |Split(s, c)| == 1
    ensures Split(s, c)[0] == s
  {
    JoinSplit(s, c);
  }

  lemma {:induction false} SplitLastIsSuffix(s: string, c: char)
    ensures var p := Split(s, c)[|Split(s, c)| - 1];
      |p| <= |s| && p == s[|s| - |p|..] && (|p| < |s| ==> s[|s| - |p| - 1] == c)
    decreases |s|
  {
    if s != [] {
      SplitLastIsSuffix(s[1..], c);
      SplitLastStep(s, c);
      var rest := Split(s[1..], c);
      var t := rest[|rest| - 1];
      if s[0] == c || |rest| > 1 {
        if s[0] != c && |t| == |s| - 1 {
          SplitAbsent(s[1..], c);
        }
        assert s[|s| - |t|..] == s[1..][|s| - 1 - |t|..];
      }
    }
  }

  /** The last piece of a split is the text after the last separator. */
  lemma SplitLast(s: string, c: char)
    ensures Split(s, c)[|Split(s, c)| - 1] == AfterLast(s, c)
  {
    SplitLastIsSuffix(s, c);
    AfterLastUnique(s, c, Split(s, c)[|Split(s, c)| - 1]);
  }

  function DigitChar(d: nat): (c: char)
    requires d < 10
    ensures IsDigit(c)
  {
    ('0' as int + d) as char
  }

  function DigitValue(c: char): (d: nat)
    requires IsDigit(c)
    ensures d < 10 && DigitChar(d) == c
  {
    c as int - '0' as int
  }

  /** The decimal text a template literal gives a non-negative integer. */
  function NatToString(n: nat): (s: string)
    ensures |s| >= 1
    ensures forall i :: 0 <= i < |s| ==> IsDigit(s[i])
    decreases n
  {
    if n < 10 then [DigitChar(n)] else NatToString(n / 10) + [DigitChar(n % 10)]
  }

  predicate AllDigits(s: string) { forall i :: 0 <= i < |s| ==> IsDigit(s[i]) }

  /** Reads a run of decimal digits back as a number. */
  function ParseDecimal(s: string): nat
    requires AllDigits(s)
    decreases |s|
  {
    if s == [] then 0 else ParseDecimal(s[..|s| - 1]) * 10 + DigitValue(s[|s| - 1])
  }

  lemma {:induction false} ParseNatToString(n: nat)
    ensures ParseDecimal(NatToString(n)) == n
    decreases n
  {
    var s := NatToString(n);
    if n < 10 {
      assert s[..0] == [];
      assert DigitValue(DigitChar(n)) == n;
    } else {
      ParseNatToString(n / 10);
      assert s[..|s| - 1] == NatToString(n / 10);
      assert DigitValue(DigitChar(n % 10)) == n % 10;
    }
  }

  lemma NatToStringInjective(m: nat, n: nat)
    requires NatToString(m) == NatToString(n)
    ensures m == n
  {
    ParseNatToString(m);
    ParseNatToString(n);
  }

  /** The longest prefix of `s` made of digits. */
  function LeadingDigits(s: string): (r: string)
    ensures |r| <= |s| && r == s[..|r|] && AllDigits(r)
    ensures |r| < |s| ==> !IsDigit(s[|r|])
    decreases |s|
  {
    if s == [] || !IsDigit(s[0]) then [] else [s[0]] + LeadingDigits(s[1..])
  }

  /** A digit run followed by text that does not start with a digit can be
      cut back apart where the digits end. */
  lemma {:induction false} LeadingDigitsOfJoin(d: string, e: string)
    requires AllDigits(d)
    requires e == [] || !IsDigit(e[0])
    ensures LeadingDigits(d + e) == d
    decreases |d|
  {
    if d != [] {
      assert (d + e)[1..] == d[1..] + e;
      LeadingDigitsOfJoin(d[1..], e);
    } else {
      assert d + e == e;
    }
  }
}
