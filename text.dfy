/**
 * The few Python 2 string operations the installer leans on, stated over
 * `seq<char>`: strip, split on one character, join, int() for bases 10 and
 * 16, str() of an int, replace, lower() and whitespace split().
 */
module Text {
  import opened Wrappers

  /** Python's whitespace in the ASCII range: space, \t, \n, \v, \f and \r. */
  predicate IsSpace(c: char)
  {
    c == ' ' || '\t' <= c <= '\r'
  }

  /** `s.rstrip()`: drops trailing whitespace and nothing else. */
  function StripRight(s: string): string
  {
    if |s| > 0 && IsSpace(s[|s| - 1]) then StripRight(s[..|s| - 1]) else s
  }

  /** rstrip() keeps a prefix, removes only whitespace and leaves none at the end. */
  lemma {:induction false} StripRightSpec(s: string)
    ensures StripRight(s) <= s
    ensures |StripRight(s)| > 0 ==> !IsSpace(StripRight(s)[|StripRight(s)| - 1])
    ensures forall i | |StripRight(s)| <= i < |s| :: IsSpace(s[i])
    decreases |s|
  {
    if |s| > 0 && IsSpace(s[|s| - 1]) {
      StripRightSpec(s[..|s| - 1]);
    }
  }

  /** `s.lstrip()`: drops leading whitespace and nothing else. */
  function StripLeft(s: string): string
  {
    if |s| > 0 && IsSpace(s[0]) then StripLeft(s[1..]) else s
  }

  /** lstrip() keeps a suffix, removes only whitespace and leaves none in front. */
  lemma {:induction false} StripLeftSpec(s: string)
    ensures |StripLeft(s)| <= |s| && StripLeft(s) == s[|s| - |StripLeft(s)|..]
    ensures |StripLeft(s)| > 0 ==> !IsSpace(StripLeft(s)[0])
    ensures forall i | 0 <= i < |s| - |StripLeft(s)| :: IsSpace(s[i])
    decreases |s|
  {
    if |s| > 0 && IsSpace(s[0]) {
      StripLeftSpec(s[1..]);
    }
  }

  /** `s.strip()`. */
  function Strip(s: string): string
  {
    StripLeft(StripRight(s))
  }

  lemma StripRightIdempotent(s: string)
    ensures StripRight(StripRight(s)) == StripRight(s)
  {
  }

  /** Stripping leaves alone a string whose ends are not whitespace. */
  lemma StripUnchanged(s: string)
    requires |s| > 0 ==> !IsSpace(s[0]) && !IsSpace(s[|s| - 1])
    ensures Strip(s) == s
  {
  }

  /** A string that starts with a non-space character keeps it in front after strip(). */
  lemma StripKeepsHead(s: string)
    requires |s| > 0 && !IsSpace(s[0])
    ensures |Strip(s)| > 0 && Strip(s)[0] == s[0]
  {
    StripRightSpec(s);
  }

  /** rstrip() of `a + b` only touches `b` when `a` ends with a non-space. */
  lemma {:induction false} StripRightAppend(a: string, b: string)
    requires |a| > 0 && !IsSpace(a[|a| - 1])
    ensures StripRight(a + b) == a + StripRight(b)
    decreases |b|
  {
    if |b| > 0 && IsSpace(b[|b| - 1]) {
      assert (a + b)[..|a + b| - 1] == a + b[..|b| - 1];
      StripRightAppend(a, b[..|b| - 1]);
    } else if |b| == 0 {
      assert a + b == a;
    }
  }

  /** The number of occurrences of `c` in `s` (`s.count(c)`). */
  function Count(s: string, c: char): nat
  {
    if s == [] then 0 else (if s[0] == c then 1 else 0) + Count(s[1..], c)
  }

  /** `s.split(c)` for a one-character separator: never empty, no piece holds `c`. */
  function Split(s: string, c: char): (parts: seq<string>)
    ensures |parts| == Count(s, c) + 1
    ensures forall i | 0 <= i < |parts| :: c !in parts[i]
  {
    if s == [] then [""]
    else
      var rest := Split(s[1..], c);
      if s[0] == c then [""] + rest
      else [[s[0]] + rest[0]] + rest[1..]
  }

  /** `sep.join(parts)`. */
  function Join(parts: seq<string>, sep: string): string
  {
    if |parts| == 0 then ""
    else if |parts| == 1 then parts[0]
    else parts[0] + sep + Join(parts[1..], sep)
  }

  /** A character in neither the pieces nor the separator is not in their join. */
  lemma {:induction false} JoinAvoids(parts: seq<string>, sep: string, c: char)
    requires c !in sep
    requires forall i | 0 <= i < |parts| :: c !in parts[i]
    ensures c !in Join(parts, sep)
  {
    if |parts| > 1 {
      JoinAvoids(parts[1..], sep, c);
      assert parts[0] + sep + Join(parts[1..], sep) == Join(parts, sep);
    }
  }

  /** Joining the pieces of a split with the separator gives back the string. */
  lemma {:induction false} JoinSplit(s: string, c: char)
    ensures Join(Split(s, c), [c]) == s
    decreases |s|
  {
    if s != [] {
      JoinSplit(s[1..], c);
      var rest := Split(s[1..], c);
      if s[0] != c {
        if |rest| == 1 {
          assert [s[0]] + s[1..] == s;
        } else {
          assert Join([[s[0]] + rest[0]] + rest[1..], [c]) == [s[0]] + Join(rest, [c]);
          assert [s[0]] + s[1..] == s;
        }
      } else {
        assert Join([""] + rest, [c]) == [c] + Join(rest, [c]);
        assert [c] + s[1..] == s;
      }
    }
  }

  /** Splitting a string that has no separator in its first part. */
  lemma {:induction false} SplitNoSep(x: string, y: string, c: char)
    requires c !in x
    ensures Split(x + y, c) == [x + Split(y, c)[0]] + Split(y, c)[1..]
    decreases |x|
  {
    if x == [] {
      assert x + y == y;
      assert x + Split(y, c)[0] == Split(y, c)[0];
      assert [Split(y, c)[0]] + Split(y, c)[1..] == Split(y, c);
    } else {
      assert (x + y)[1..] == x[1..] + y;
      SplitNoSep(x[1..], y, c);
      assert [x[0]] + (x[1..] + Split(y, c)[0]) == x + Split(y, c)[0];
    }
  }

  /** A split distributes over a separator placed between two strings. */
  lemma {:induction false} SplitAppend(x: string, y: string, c: char)
    ensures Split(x + [c] + y, c) == Split(x, c) + Split(y, c)
    decreases |x|
  {
    if x == [] {
      assert x + [c] + y == [c] + y;
      assert ([c] + y)[1..] == y;
    } else {
      assert (x + [c] + y)[1..] == x[1..] + [c] + y;
      SplitAppend(x[1..], y, c);
      if x[0] != c {
        assert Split(x, c) == [[x[0]] + Split(x[1..], c)[0]] + Split(x[1..], c)[1..];
      }
    }
  }

  /** A string without the separator splits into itself alone. */
  lemma SplitSingle(s: string, c: char)
    requires c !in s
    ensures Split(s, c) == [s]
  {
    SplitNoSep(s, "", c);
    assert s + "" == s;
  }

  /** Joining separator-free pieces and splitting again gives the pieces back. */
  lemma {:induction false} SplitJoin(parts: seq<string>, c: char)
    requires |parts| >= 1
    requires forall i | 0 <= i < |parts| :: c !in parts[i]
    ensures Split(Join(parts, [c]), c) == parts
    decreases |parts|
  {
    if |parts| == 1 {
      SplitSingle(parts[0], c);
    } else {
      SplitJoin(parts[1..], c);
      SplitAppend(parts[0], Join(parts[1..], [c]), c);
      SplitSingle(parts[0], c);
      assert [parts[0]] + parts[1..] == parts;
    }
  }

  /** The length of the run of non-space characters at the start of `s`. */
  function WordLen(s: string): (n: nat)
    ensures n <= |s|
    ensures |s| > 0 && !IsSpace(s[0]) ==> n >= 1
    ensures forall i | 0 <= i < n :: !IsSpace(s[i])
    ensures n < |s| ==> IsSpace(s[n])
  {
    if s == [] || IsSpace(s[0]) then 0 else 1 + WordLen(s[1..])
  }

  /** `s.split()`: the maximal runs of non-whitespace, in order. */
  function Fields(s: string): (r: seq<string>)
    ensures forall i | 0 <= i < |r| :: |r[i]| > 0
    decreases |s|
  {
    if s == [] then []
    else if IsSpace(s[0]) then Fields(s[1..])
    else
      var n := WordLen(s);
      [s[..n]] + Fields(s[n..])
  }

  /** The index of the first `c` in `s` (`s.index(c)`). */
  function IndexOf(s: string, c: char): (i: nat)
    requires c in s
    ensures i < |s| && s[i] == c && c !in s[..i]
  {
    if s[0] == c then 0 else 1 + IndexOf(s[1..], c)
  }

  /** The index of the first `c` is the one position holding `c` with none before it. */
  lemma IndexOfAt(s: string, c: char, j: nat)
    requires j < |s| && s[j] == c && c !in s[..j]
    ensures IndexOf(s, c) == j
  {
    var i := IndexOf(s, c);
    forall p | 0 <= p < j
      ensures s[p] != c
    {
      assert s[..j][p] == s[p];
    }
    forall p | 0 <= p < i
      ensures s[p] != c
    {
      assert s[..i][p] == s[p];
    }
  }

  /** `s.lower()` for a byte string: only A-Z change. */
  function Lower(s: string): (r: string)
    ensures |r| == |s|
    ensures forall i | 0 <= i < |s| :: r[i] == (if 'A' <= s[i] <= 'Z' then (s[i] as int + 32) as char else s[i])
  {
    if s == [] then [] else [if 'A' <= s[0] <= 'Z' then (s[0] as int + 32) as char else s[0]] + Lower(s[1..])
  }

  /** `s.replace(pat, rep)`: every non-overlapping occurrence, scanned left to right. */
  function ReplaceAll(s: string, pat: string, rep: string): string
    requires |pat| > 0
    decreases |s|
  {
    if |s| < |pat| then s
    else if s[..|pat|] == pat then rep + ReplaceAll(s[|pat|..], pat, rep)
    else [s[0]] + ReplaceAll(s[1..], pat, rep)
  }

  /** Replacing one character by another keeps the length and changes only that character. */
  lemma {:induction false} ReplaceChar(s: string, a: char, b: char)
    ensures |ReplaceAll(s, [a], [b])| == |s|
    ensures forall i | 0 <= i < |s| :: ReplaceAll(s, [a], [b])[i] == (if s[i] == a then b else s[i])
    decreases |s|
  {
    if |s| >= 1 {
      ReplaceChar(s[1..], a, b);
      assert s[..1] == [s[0]];
      var r := ReplaceAll(s, [a], [b]);
      assert s[1..] == s[|[a]|..];
      assert r == (if s[0] == a then [b] else [s[0]]) + ReplaceAll(s[1..], [a], [b]);
    }
  }

  /** `pat in s` for strings: `pat` occurs as a contiguous piece of `s`. */
  predicate Occurs(pat: string, s: string)
  {
    exists i | 0 <= i <= |s| :: OccursAt(pat, s, i)
  }

  /** `pat` starts at index `i` of `s`. */
  predicate OccursAt(pat: string, s: string, i: nat)
  {
    i <= |s| && pat <= s[i..]
  }

  /** `s.rstrip(c)`: drops trailing copies of `c`. */
  function TrimRight(s: string, c: char): (r: string)
    ensures r <= s && (|r| > 0 ==> r[|r| - 1] != c)
    ensures forall i | |r| <= i < |s| :: s[i] == c
  {
    if |s| > 0 && s[|s| - 1] == c then TrimRight(s[..|s| - 1], c) else s
  }

  // ---------------------------------------------------------------- numbers

  /** The value of one digit in base 10 or 16 (either letter case), if it is one. */
  function DigitValue(c: char, base: nat): Option<nat>
  {
    if '0' <= c <= '9' && (c as int - '0' as int) < base then Some(c as int - '0' as int)
    else if base == 16 && 'a' <= c <= 'f' then Some(c as int - 'a' as int + 10)
    else if base == 16 && 'A' <= c <= 'F' then Some(c as int - 'A' as int + 10)
    else None
  }

  predicate IsDigits(s: string, base: nat)
  {
    |s| > 0 && forall i | 0 <= i < |s| :: DigitValue(s[i], base).Some?
  }

  /** The value of a digit string, most significant digit first. */
  function DigitsValue(s: string, base: nat): (v: nat)
  {
    if s == [] then 0
    else DigitsValue(s[..|s| - 1], base) * base + DigitOf(s[|s| - 1], base)
  }

  /** The value of a digit, 0 for a character that is not one. */
  function DigitOf(c: char, base: nat): nat
  {
    match DigitValue(c, base)
    case Some(d) => d
    case None => 0
  }

  /**
   * Python 2's `int(s, base)` for base 10 or 16: surrounding whitespace, an
   * optional sign, more whitespace after the sign, in base 16 an optional
   * "0x" or "0X", then one or more digits; anything else raises
   * ValueError, here None.
   */
  function ParseInt(s: string, base: nat): Option<int>
    requires base == 10 || base == 16
  {
    var t := Strip(s);
    var signed := |t| > 0 && (t[0] == '+' || t[0] == '-');
    var digits := Unprefixed(if signed then StripLeft(t[1..]) else t, base);
    if IsDigits(digits, base) then
      var magnitude: int := DigitsValue(digits, base);
      Some(if signed && t[0] == '-' then -magnitude else magnitude)
    else None
  }

  /** The digits after a base-16 "0x" prefix; in base 10 there is no prefix. */
  function Unprefixed(d: string, base: nat): string
  {
    if base == 16 && |d| > 2 && d[0] == '0' && (d[1] == 'x' || d[1] == 'X') then d[2..] else d
  }

  function DigitChar(d: nat): (c: char)
    requires d < 10
    ensures DigitValue(c, 10) == Some(d) && DigitOf(c, 10) == d
  {
    ('0' as int + d) as char
  }

  /** A decimal numeral without a superfluous leading zero, as `str()` writes one. */
  predicate Canonical(s: string)
  {
    IsDigits(s, 10) && (s[0] == '0' ==> |s| == 1)
  }

  /** `str(n)` for a natural number: a canonical numeral whose value is `n`. */
  function DecStr(n: nat): (r: string)
    ensures Canonical(r)
    ensures DigitsValue(r, 10) == n
  {
    if n < 10 then [DigitChar(n)]
    else
      var r := DecStr(n / 10) + [DigitChar(n % 10)];
      assert r[..|r| - 1] == DecStr(n / 10);
      r
  }

  /** `str(i)` for any int. */
  function IntStr(i: int): string
  {
    if i < 0 then "-" + DecStr(-i) else DecStr(i)
  }

  /** `str()` of an int starts with a minus sign or a digit. */
  lemma IntStrLead(i: int)
    ensures IntStr(i) != [] && (IntStr(i)[0] == '-' || '0' <= IntStr(i)[0] <= '9')
  {
    var d := DecStr(if i < 0 then -i else i);
    assert Canonical(d);
    assert d != [] && '0' <= d[0] <= '9';
  }

  /** A canonical numeral is what `str()` writes for its value. */
  lemma {:induction false} DecStrOfValue(s: string)
    requires Canonical(s)
    ensures DecStr(DigitsValue(s, 10)) == s
    decreases |s|
  {
    var n := DigitsValue(s, 10);
    if |s| == 1 {
      assert s[..|s| - 1] == [];
    } else {
      var p := s[..|s| - 1];
      assert p[0] == s[0];
      DecStrOfValue(p);
      var m := DigitsValue(p, 10);
      var d := DigitOf(s[|s| - 1], 10);
      assert m > 0 by {
        LeadingDigitPositive(p);
      }
      assert n == m * 10 + d && d < 10;
      assert n / 10 == m && n % 10 == d;
      assert DigitChar(d) == s[|s| - 1];
      assert s == p + [s[|s| - 1]];
    }
  }

  /** A numeral whose first digit is not 0 has a positive value. */
  lemma {:induction false} LeadingDigitPositive(s: string)
    requires IsDigits(s, 10) && s[0] != '0'
    ensures DigitsValue(s, 10) > 0
    decreases |s|
  {
    if |s| > 1 {
      var p := s[..|s| - 1];
      assert p[0] == s[0];
      LeadingDigitPositive(p);
    }
  }

  /** int() reads back what str() writes. */
  lemma ParseIntStr(n: nat)
    ensures ParseInt(DecStr(n), 10) == Some(n)
  {
    var s := DecStr(n);
    StripUnchanged(s);
  }

  /** int() reads back what str() writes for a negative number too. */
  lemma ParseIntStrSigned(n: int)
    ensures ParseInt(IntStr(n), 10) == Some(n)
  {
    if n >= 0 {
      ParseIntStr(n);
    } else {
      var s := IntStr(n);
      assert s == "-" + DecStr(-n);
      assert Strip(s) == s by {
        StripUnchanged(s);
      }
      assert s[1..] == DecStr(-n);
    }
  }

  /** Whitespace between the sign and the digits is skipped: `int("- 5")` is -5. */
  lemma ParseIntSpacedSign(ws: string, n: nat)
    requires forall i | 0 <= i < |ws| :: IsSpace(ws[i])
    ensures ParseInt("-" + ws + DecStr(n), 10) == Some(-(n as int))
  {
    SpacedSign(ws, DecStr(n));
    assert IsDigits(DecStr(n), 10);
  }

  /** "-", whitespace and digits: strip() keeps it, and lstrip() after the sign leaves the digits. */
  lemma SpacedSign(ws: string, d: string)
    requires forall i | 0 <= i < |ws| :: IsSpace(ws[i])
    requires IsDigits(d, 10)
    ensures var s := "-" + ws + d; Strip(s) == s && s[0] == '-' && StripLeft(s[1..]) == d
  {
    var s := "-" + ws + d;
    assert s[|s| - 1] == d[|d| - 1];
    assert DigitValue(d[|d| - 1], 10).Some?;
    StripUnchanged(s);
    assert s[1..] == ws + d;
    assert DigitValue(d[0], 10).Some?;
    StripLeftSkips(ws, d);
  }

  /** lstrip() drops leading whitespace up to the first other character. */
  lemma {:induction false} StripLeftSkips(ws: string, d: string)
    requires forall i | 0 <= i < |ws| :: IsSpace(ws[i])
    requires |d| > 0 && !IsSpace(d[0])
    ensures StripLeft(ws + d) == d
    decreases |ws|
  {
    if ws == [] {
      assert ws + d == d;
    } else {
      assert (ws + d)[1..] == ws[1..] + d;
      StripLeftSkips(ws[1..], d);
    }
  }
}
