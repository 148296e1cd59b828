/**
 * The pieces of the .NET string and integer classes the editor relies on:
 * Split and Join, ordinal Replace, case-insensitive comparison, Int32
 * arithmetic and its decimal text.
 */
module Strs {

  // ---------------------------------------------------------------------------
  // Split and Join
  // ---------------------------------------------------------------------------

  /** String.Split(sep): the parts between the separators, empty parts included. */
  function Split(s: string, sep: char): (r: seq<string>)
    ensures |r| > 0
    ensures forall i :: 0 <= i < |r| ==> sep !in r[i]
    decreases |s|
  {
    if |s| == 0 then [""]
    else
      var rest := Split(s[1..], sep);
      if s[0] == sep then [""] + rest else [[s[0]] + rest[0]] + rest[1..]
  }

  /** String.Join(sep, parts). */
  function Join(parts: seq<string>, sep: string): string
    decreases |parts|
  {
    if |parts| == 0 then ""
    else if |parts| == 1 then parts[0]
    else parts[0] + sep + Join(parts[1..], sep)
  }

  /** Joining the parts of a split with the separator gives the string back. */
  lemma {:induction false} SplitJoin(s: string, sep: char)
    ensures Join(Split(s, sep), [sep]) == s
    decreases |s|
  {
    if |s| > 0 {
      SplitJoin(s[1..], sep);
      var rest := Split(s[1..], sep);
      if s[0] == sep {
        assert ([""] + rest)[1..] == rest;
        assert s == [sep] + s[1..];
      } else {
        var r := [[s[0]] + rest[0]] + rest[1..];
        assert r[1..] == rest[1..];
        if |rest| > 1 {
          assert Join(rest, [sep]) == rest[0] + [sep] + Join(rest[1..], [sep]);
        }
        assert s == [s[0]] + s[1..];
      }
    }
  }

  /** A string without the separator is one part. */
  lemma {:induction false} SplitWithout(a: string, sep: char)
    requires sep !in a
    ensures Split(a, sep) == [a]
    decreases |a|
  {
    if |a| > 0 {
      SplitWithout(a[1..], sep);
      assert a == [a[0]] + a[1..];
    }
  }

  /** A first part without the separator comes off a split whole. */
  lemma {:induction false} SplitAfter(a: string, sep: char, t: string)
    requires sep !in a
    ensures Split(a + [sep] + t, sep) == [a] + Split(t, sep)
    decreases |a|
  {
    var s := a + [sep] + t;
    if |a| == 0 {
      assert s == [sep] + t;
      assert s[1..] == t;
    } else {
      assert s[1..] == a[1..] + [sep] + t;
      SplitAfter(a[1..], sep, t);
      assert a == [a[0]] + a[1..];
    }
  }

  /** A separator cuts the string in two: the parts of each side, in order. */
  lemma {:induction false} SplitAround(x: string, sep: char, y: string)
    ensures Split(x + [sep] + y, sep) == Split(x, sep) + Split(y, sep)
    decreases |x|
  {
    if |x| == 0 {
      SplitCons(sep, y, sep);
      assert x + [sep] + y == [sep] + y;
    } else {
      var tail := x[1..] + [sep] + y;
      assert x + [sep] + y == [x[0]] + tail;
      assert x == [x[0]] + x[1..];
      SplitCons(x[0], tail, sep);
      SplitCons(x[0], x[1..], sep);
      SplitAround(x[1..], sep, y);
      ConsOnto(x[0], sep, Split(x[1..], sep), Split(y, sep));
    }
  }

  /** The first-character step of Split, taken before or after appending more parts. */
  lemma ConsOnto(c: char, sep: char, left: seq<string>, right: seq<string>)
    requires |left| > 0
    ensures (var rest := left + right; if c == sep then [""] + rest else [[c] + rest[0]] + rest[1..])
      == (if c == sep then [""] + left else [[c] + left[0]] + left[1..]) + right
  {
    if c != sep {
      assert (left + right)[1..] == left[1..] + right;
    }
  }

  /** Split of a string by its first character. */
  lemma SplitCons(c: char, t: string, sep: char)
    ensures Split([c] + t, sep) ==
      var rest := Split(t, sep);
      if c == sep then [""] + rest else [[c] + rest[0]] + rest[1..]
  {
    assert ([c] + t)[1..] == t;
  }

  /** Splitting parts joined with a separator none of them holds gives the parts back. */
  lemma {:induction false} JoinSplit(parts: seq<string>, sep: char)
    requires |parts| > 0 && forall i :: 0 <= i < |parts| ==> sep !in parts[i]
    ensures Split(Join(parts, [sep]), sep) == parts
    decreases |parts|
  {
    if |parts| == 1 {
      SplitWithout(parts[0], sep);
    } else {
      JoinSplit(parts[1..], sep);
      SplitAfter(parts[0], sep, Join(parts[1..], [sep]));
      assert [parts[0]] + parts[1..] == parts;
    }
  }

  /** The parts that StringSplitOptions.RemoveEmptyEntries keeps. */
  function NonEmpty(parts: seq<string>): (r: seq<string>)
    ensures |r| <= |parts|
    ensures forall i :: 0 <= i < |r| ==> r[i] != "" && r[i] in parts
    decreases |parts|
  {
    if |parts| == 0 then []
    else (if parts[0] == "" then [] else [parts[0]]) + NonEmpty(parts[1..])
  }

  /** Parts that are all non-empty are all kept, in order. */
  lemma {:induction false} NonEmptyKeepsAll(parts: seq<string>)
    requires forall i :: 0 <= i < |parts| ==> parts[i] != ""
    ensures NonEmpty(parts) == parts
    decreases |parts|
  {
    if |parts| > 0 {
      NonEmptyKeepsAll(parts[1..]);
      assert [parts[0]] + parts[1..] == parts;
    }
  }

  // ---------------------------------------------------------------------------
  // Replace
  // ---------------------------------------------------------------------------

  /** String.Replace(pat, rep): ordinal, left to right, each replaced occurrence skipped over. */
  function Replace(s: string, pat: string, rep: string): string
    requires |pat| > 0
    decreases |s|
  {
    if |s| < |pat| then s
    else if s[..|pat|] == pat then rep + Replace(s[|pat|..], pat, rep)
    else [s[0]] + Replace(s[1..], pat, rep)
  }

  /** Replacing a character by nothing removes every occurrence and keeps the rest. */
  lemma {:induction false} RemoveChar(s: string, c: char)
    ensures c !in Replace(s, [c], "")
    ensures forall x :: x != c ==> (x in s <==> x in Replace(s, [c], ""))
    decreases |s|
  {
    if |s| > 0 {
      RemoveChar(s[1..], c);
      assert s == [s[0]] + s[1..];
      assert s[..1] == [s[0]];
    }
  }

  /** A character that is not there is not replaced. */
  lemma {:induction false} ReplaceAbsentChar(s: string, c: char, rep: string)
    requires c !in s
    ensures Replace(s, [c], rep) == s
    decreases |s|
  {
    if |s| > 0 {
      ReplaceAbsentChar(s[1..], c, rep);
      assert s[..1] == [s[0]];
      assert s == [s[0]] + s[1..];
    }
  }

  /** A pattern whose first character is not there is not replaced. */
  lemma {:induction false} ReplaceAbsent(s: string, pat: string, rep: string)
    requires |pat| > 0 && pat[0] !in s
    ensures Replace(s, pat, rep) == s
    decreases |s|
  {
    if |s| >= |pat| {
      assert s[..|pat|][0] == s[0] != pat[0];
      ReplaceAbsent(s[1..], pat, rep);
      assert s == [s[0]] + s[1..];
    }
  }

  /** Removing a character shortens the string by its number of occurrences. */
  lemma {:induction false} RemoveCharLength(s: string, c: char)
    ensures |Replace(s, [c], "")| == |s| - multiset(s)[c]
    decreases |s|
  {
    if |s| > 0 {
      RemoveCharLength(s[1..], c);
      assert s == [s[0]] + s[1..];
      assert s[..1] == [s[0]];
      assert multiset(s) == multiset{s[0]} + multiset(s[1..]);
    }
  }

  /** One pass does not catch the occurrences a replacement makes: "\r\r\n" becomes "\r\n". */
  lemma ReplaceIsOnePass()
    ensures Replace("\r\r\n", "\r\n", "\n") == "\r\n"
  {
    var s := "\r\r\n";
    assert s[..2] != "\r\n" by { assert s[1] == '\r'; }
    assert s[1..] == "\r\n";
    assert s[1..][..2] == "\r\n";
    assert s[1..][2..] == "";
  }

  // ---------------------------------------------------------------------------
  // Case-insensitive comparison
  // ---------------------------------------------------------------------------

  /** The upper case of an ASCII letter; other characters are left as they are. */
  function Upper(c: char): char
  {
    if 'a' <= c <= 'z' then (c as int - 32) as char else c
  }

  /** Equality ignoring case. */
  predicate EqualsIgnoreCase(a: string, b: string)
  {
    |a| == |b| && forall i :: 0 <= i < |a| ==> Upper(a[i]) == Upper(b[i])
  }

  /** StringComparer.OrdinalIgnoreCase.Compare, as its sign: upper-cased code units, then length. */
  function CompareIgnoreCase(a: string, b: string): (r: int)
    ensures -1 <= r <= 1
    decreases |a|
  {
    if |a| == 0 then (if |b| == 0 then 0 else -1)
    else if |b| == 0 then 1
    else if Upper(a[0]) < Upper(b[0]) then -1
    else if Upper(a[0]) > Upper(b[0]) then 1
    else CompareIgnoreCase(a[1..], b[1..])
  }

  /** Swapping the operands flips the sign, and 0 means equal ignoring case. */
  lemma {:induction false} CompareIgnoreCaseFlips(a: string, b: string)
    ensures CompareIgnoreCase(a, b) == -CompareIgnoreCase(b, a)
    ensures CompareIgnoreCase(a, b) == 0 <==> EqualsIgnoreCase(a, b)
    decreases |a|
  {
    if |a| > 0 && |b| > 0 && Upper(a[0]) == Upper(b[0]) {
      CompareIgnoreCaseFlips(a[1..], b[1..]);
      if EqualsIgnoreCase(a[1..], b[1..]) {
        forall i | 0 <= i < |a| ensures Upper(a[i]) == Upper(b[i]) {
          if i > 0 {
            assert a[i] == a[1..][i - 1];
            assert b[i] == b[1..][i - 1];
          }
        }
      }
      if EqualsIgnoreCase(a, b) {
        forall i | 0 <= i < |a| - 1 ensures Upper(a[1..][i]) == Upper(b[1..][i]) {
          assert a[1..][i] == a[i + 1];
        }
      }
    } else if |a| > 0 && |b| > 0 {
      assert !EqualsIgnoreCase(a, b) by { assert Upper(a[0]) != Upper(b[0]); }
    }
  }

  /** The order ignoring case is transitive. */
  lemma {:induction false} CompareIgnoreCaseTransitive(a: string, b: string, c: string)
    requires CompareIgnoreCase(a, b) <= 0 && CompareIgnoreCase(b, c) <= 0
    ensures CompareIgnoreCase(a, c) <= 0
    decreases |a|
  {
    if |a| > 0 && |b| > 0 && |c| > 0 && Upper(a[0]) == Upper(b[0]) && Upper(b[0]) == Upper(c[0]) {
      CompareIgnoreCaseTransitive(a[1..], b[1..], c[1..]);
    }
  }

  // ---------------------------------------------------------------------------
  // Int32 and its text
  // ---------------------------------------------------------------------------

  const Int32Min := -0x8000_0000
  const Int32Max := 0x7FFF_FFFF

  /** Unchecked Int32 arithmetic: the value wrapped into the Int32 range. */
  function Wrap32(n: int): (r: int)
    ensures Int32Min <= r <= Int32Max
    ensures Int32Min <= n <= Int32Max ==> r == n
  {
    (n - Int32Min) % 0x1_0000_0000 + Int32Min
  }

  /** The decimal digits of n, as Int32.ToString writes a non-negative value. */
  function NaturalText(n: nat): (r: string)
    decreases n
  {
    (if n < 10 then "" else NaturalText(n / 10)) + [(('0' as int) + n % 10) as char]
  }

  /** Reads decimal digits back. */
  function DigitsValue(s: string): int
    decreases |s|
  {
    if |s| == 0 then 0 else DigitsValue(s[..|s| - 1]) * 10 + (s[|s| - 1] as int - '0' as int)
  }

  lemma {:induction false} NaturalTextReadsBack(n: nat)
    ensures |NaturalText(n)| > 0
    ensures forall i :: 0 <= i < |NaturalText(n)| ==> '0' <= NaturalText(n)[i] <= '9'
    ensures DigitsValue(NaturalText(n)) == n
  {
    NaturalTextDigits(n);
    NaturalTextValue(n);
  }

  lemma {:induction false} NaturalTextDigits(n: nat)
    ensures |NaturalText(n)| > 0
    ensures forall i :: 0 <= i < |NaturalText(n)| ==> '0' <= NaturalText(n)[i] <= '9'
    decreases n
  {
    if n >= 10 {
      NaturalTextDigits(n / 10);
      var p := NaturalText(n / 10);
      assert NaturalText(n) == p + [(('0' as int) + n % 10) as char];
    }
  }

  lemma {:induction false} NaturalTextValue(n: nat)
    ensures DigitsValue(NaturalText(n)) == n
    decreases n
  {
    var r := NaturalText(n);
    var d := n % 10;
    assert r[|r| - 1] as int - '0' as int == d;
    if n >= 10 {
      NaturalTextValue(n / 10);
      assert r[..|r| - 1] == NaturalText(n / 10);
      assert DigitsValue(r) == (n / 10) * 10 + d;
    } else {
      assert r[..|r| - 1] == [];
    }
  }

  /** Int32.ToString: a minus sign before the digits of a negative value. */
  function IntText(n: int): string
  {
    if n < 0 then "-" + NaturalText(-n) else NaturalText(n)
  }

  /** The text of n starts with '-' exactly when n is negative, and its digits read back as the magnitude of n. */
  lemma IntTextShape(n: int)
    ensures var t := IntText(n);
      && (n < 0 <==> (|t| > 0 && t[0] == '-'))
      && DigitsValue(if n < 0 then t[1..] else t) == (if n < 0 then -n else n)
  {
    var t := IntText(n);
    if n < 0 {
      var m := NaturalText(-n);
      NaturalTextValue(-n);
      assert t == "-" + m && t[1..] == m;
    } else {
      NaturalTextDigits(n);
      NaturalTextValue(n);
    }
  }
}
