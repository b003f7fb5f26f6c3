/**
 * The parts of Python's `str` behaviour the tool relies on: `strip`,
 * `endswith`, `in` on strings, `split`/`join`, `lower`, `str(int)` and `int(str)`.
 */
module PyText {
  import opened Wrappers

  /** `c.isspace()`: exactly the characters `str.strip()` removes. */
  predicate IsSpace(c: char)
  {
    var k := c as int;
    (9 <= k <= 13) || (28 <= k <= 32) || k == 0x85 || k == 0xA0 || k == 0x1680
    || (0x2000 <= k <= 0x200A) || k == 0x2028 || k == 0x2029 || k == 0x202F
    || k == 0x205F || k == 0x3000
  }

  /** True of a string that `strip()` leaves unchanged. */
  predicate Stripped(s: string)
  {
    s == [] || (!IsSpace(s[0]) && !IsSpace(s[|s| - 1]))
  }

  /** `s.lstrip()`: drops the leading whitespace and nothing else. */
  function TrimStart(s: string): (r: string)
    ensures |r| <= |s| && r == s[|s| - |r|..]
    ensures forall k :: 0 <= k < |s| - |r| ==> IsSpace(s[k])
    ensures r == [] || !IsSpace(r[0])
  {
    if s != [] && IsSpace(s[0]) then TrimStart(s[1..]) else s
  }

  /** `s.rstrip()`: drops the trailing whitespace and nothing else. */
  function TrimEnd(s: string): (r: string)
    ensures |r| <= |s| && r == s[..|r|]
    ensures forall k :: |r| <= k < |s| ==> IsSpace(s[k])
    ensures r == [] || !IsSpace(r[|r| - 1])
  {
    if s != [] && IsSpace(s[|s| - 1]) then TrimEnd(s[..|s| - 1]) else s
  }

  /** Every character of `s` is whitespace. */
  predicate AllSpace(s: string)
  {
    forall k :: 0 <= k < |s| ==> IsSpace(s[k])
  }

  /**
   * `s.strip()`: the slice of `s` left once the whitespace at both ends is
   * removed; with `Stripped(r)` the slice is the largest such one.
   */
  function Strip(s: string): (r: string)
    ensures Stripped(r)
    ensures r == [] <==> forall k :: 0 <= k < |s| ==> IsSpace(s[k])
    ensures exists i, j :: 0 <= i <= j <= |s| && r == s[i..j] && AllSpace(s[..i]) && AllSpace(s[j..])
  {
    var t := TrimStart(s);
    var r := TrimEnd(t);
    assert r != [] ==> r[0] == t[0];
    assert (forall k :: 0 <= k < |s| ==> IsSpace(s[k])) ==> t == [] by {
      if t != [] { assert t[0] == s[|s| - |t|]; }
    }
    assert exists i, j :: 0 <= i <= j <= |s| && r == s[i..j] && AllSpace(s[..i]) && AllSpace(s[j..]) by {
      var i, j := TrimBounds(s);
    }
    r
  }

  /** Where the slice `strip()` keeps starts and ends. */
  lemma TrimBounds(s: string) returns (i: nat, j: nat)
    ensures i <= j <= |s| && TrimEnd(TrimStart(s)) == s[i..j]
    ensures AllSpace(s[..i]) && AllSpace(s[j..])
  {
    var t := TrimStart(s);
    i := |s| - |t|;
    j := i + |TrimEnd(t)|;
    SliceParts(s, i, j);
    LeadingSpace(s);
    TrailingSpace(s);
  }

  /** What `lstrip()` drops is whitespace. */
  lemma LeadingSpace(s: string)
    ensures AllSpace(s[..|s| - |TrimStart(s)|])
  {
    var i := |s| - |TrimStart(s)|;
    forall k | 0 <= k < i
      ensures IsSpace(s[..i][k])
    {
      assert s[..i][k] == s[k];
    }
  }

  /** What `rstrip()` then drops is whitespace too. */
  lemma TrailingSpace(s: string)
    ensures var t := TrimStart(s); AllSpace(s[|s| - |t| + |TrimEnd(t)|..])
  {
    var t := TrimStart(s);
    var i := |s| - |t|;
    var j := i + |TrimEnd(t)|;
    SliceParts(s, i, j);
    DroppedEnd(t);
  }

  /** What `rstrip()` drops is whitespace. */
  lemma DroppedEnd(t: string)
    ensures AllSpace(t[|TrimEnd(t)|..])
  {
    var n := |TrimEnd(t)|;
    forall k | 0 <= k < |t| - n
      ensures IsSpace(t[n..][k])
    {
      assert t[n..][k] == t[n + k];
    }
  }

  /** Cutting a suffix of `s` at `j - i` is cutting `s` at `j`. */
  lemma SliceParts<T>(s: seq<T>, i: nat, j: nat)
    requires i <= j <= |s|
    ensures s[i..][..j - i] == s[i..j] && s[i..][j - i..] == s[j..]
  {
  }

  /** Stripping only removes characters. */
  lemma StripKeepsChars(s: string, c: char)
    requires c in Strip(s)
    ensures c in s
  {
    var t := TrimStart(s);
    assert Strip(s) == TrimEnd(t);
    assert c in t;
  }

  /** A string with no whitespace at either end is its own `strip()`. */
  lemma StripStable(s: string)
    requires Stripped(s)
    ensures Strip(s) == s
  {
  }

  /** `s.endswith(suffix)` */
  predicate EndsWith(s: string, suffix: string)
  {
    |suffix| <= |s| && s[|s| - |suffix|..] == suffix
  }

  /** `part` occurs in `s` starting at index `i`. */
  predicate OccursAt(s: string, part: string, i: int)
  {
    0 <= i <= |s| - |part| && s[i..i + |part|] == part
  }

  /** `part in s` for two strings */
  predicate Contains(s: string, part: string)
  {
    exists i | 0 <= i <= |s| - |part| :: OccursAt(s, part, i)
  }

  /** `s.split(sep)` for a one-character separator: never empty, `"".split(",") == [""]`. */
  function Split(s: string, sep: char): (r: seq<string>)
    ensures |r| >= 1
    ensures forall i :: 0 <= i < |r| ==> sep !in r[i]
  {
    if s == [] then [""]
    else
      var rest := Split(s[1..], sep);
      if s[0] == sep then [""] + rest else [[s[0]] + rest[0]] + rest[1..]
  }

  /** `sep.join(parts)` */
  function Join(parts: seq<string>, sep: string): string
  {
    if parts == [] then ""
    else if |parts| == 1 then parts[0]
    else parts[0] + sep + Join(parts[1..], sep)
  }

  /** Joining the pieces of a split gives back the original string. */
  lemma {:induction false} JoinSplit(s: string, sep: char)
    ensures Join(Split(s, sep), [sep]) == s
  {
    if s != [] {
      var rest := Split(s[1..], sep);
      JoinSplit(s[1..], sep);
      if s[0] == sep {
        assert Join([""] + rest, [sep]) == "" + [sep] + Join(rest, [sep]) by {
          assert ([""] + rest)[1..] == rest;
        }
      } else if |rest| == 1 {
        assert s == [s[0]] + s[1..];
      } else {
        var r := [[s[0]] + rest[0]] + rest[1..];
        assert r[1..] == rest[1..];
        assert Join(rest, [sep]) == rest[0] + [sep] + Join(rest[1..], [sep]);
        assert s == [s[0]] + s[1..];
      }
    }
  }

  lemma {:induction false} SplitWithoutSeparator(a: string, sep: char)
    requires sep !in a
    ensures Split(a, sep) == [a]
  {
    if a != [] {
      SplitWithoutSeparator(a[1..], sep);
      assert a == [a[0]] + a[1..];
    }
  }

  lemma {:induction false} SplitAtFirst(a: string, b: string, sep: char)
    requires sep !in a
    ensures Split(a + [sep] + b, sep) == [a] + Split(b, sep)
  {
    var s := a + [sep] + b;
    if a == [] {
      assert s[1..] == b;
    } else {
      assert s[1..] == a[1..] + [sep] + b;
      SplitAtFirst(a[1..], b, sep);
      assert a == [a[0]] + a[1..];
    }
  }

  /** Splitting a join of separator-free pieces gives back the pieces. */
  lemma {:induction false} SplitJoin(parts: seq<string>, sep: char)
    requires |parts| >= 1
    requires forall i :: 0 <= i < |parts| ==> sep !in parts[i]
    ensures Split(Join(parts, [sep]), sep) == parts
  {
    if |parts| == 1 {
      SplitWithoutSeparator(parts[0], sep);
    } else {
      SplitJoin(parts[1..], sep);
      SplitAtFirst(parts[0], Join(parts[1..], [sep]), sep);
      assert parts == [parts[0]] + parts[1..];
    }
  }

  /** `c.lower()` restricted to ASCII letters. */
  function LowerChar(c: char): char
  {
    if 'A' <= c <= 'Z' then (c as int + 32) as char else c
  }

  /** `s.lower()` restricted to ASCII letters. */
  function Lower(s: string): string
  {
    seq(|s|, i requires 0 <= i < |s| => LowerChar(s[i]))
  }

  /** A string without ASCII capitals is its own lower case. */
  lemma LowerWithoutCapitals(s: string)
    requires forall i :: 0 <= i < |s| ==> !('A' <= s[i] <= 'Z')
    ensures Lower(s) == s
  {
  }

  predicate IsDigit(c: char)
  {
    '0' <= c <= '9'
  }

  predicate AllDigits(s: string)
  {
    forall i :: 0 <= i < |s| ==> IsDigit(s[i])
  }

  function DigitChar(d: nat): char
    requires d < 10
  {
    ('0' as int + d) as char
  }

  /** `str(n)` for a non-negative integer: decimal digits without leading zeros. */
  function Decimal(n: nat): (s: string)
    ensures |s| >= 1 && AllDigits(s)
    ensures s[0] == '0' ==> n == 0
  {
    if n < 10 then [DigitChar(n)] else Decimal(n / 10) + [DigitChar(n % 10)]
  }

  /** The number a string of decimal digits denotes. */
  function DigitsValue(s: string): nat
    requires AllDigits(s)
  {
    if s == [] then 0 else DigitsValue(s[..|s| - 1]) * 10 + (s[|s| - 1] as int - '0' as int)
  }

  /** Reading back `str(n)` gives `n`, so the decimal text identifies the number. */
  lemma {:induction false} DecimalRoundTrip(n: nat)
    ensures DigitsValue(Decimal(n)) == n
  {
    if n >= 10 {
      DecimalRoundTrip(n / 10);
      var s := Decimal(n);
      assert s[..|s| - 1] == Decimal(n / 10);
    }
  }

  /** `str(n)` for any integer. */
  function IntDecimal(n: int): string
  {
    (if n < 0 then "-" else "") + Decimal(Abs(n))
  }

  function Abs(n: int): nat
  {
    if n < 0 then -n else n
  }

  /** The text `int()` accepts once stripped: ASCII digits, optionally after one sign. */
  predicate IntLiteral(t: string)
  {
    t != [] && (AllDigits(t) || (|t| >= 2 && (t[0] == '-' || t[0] == '+') && AllDigits(t[1..])))
  }

  /** The text starts with a minus sign. */
  predicate Negative(t: string)
  {
    t != [] && t[0] == '-'
  }

  /**
   * `int(s)`: surrounding whitespace, an optional sign and at least one
   * ASCII decimal digit; `None` where Python raises `ValueError`.
   */
  function ParseInt(s: string): (r: Option<int>)
    ensures r.Some? <==> IntLiteral(Strip(s))
    ensures r.Some? && r.value < 0 ==> Negative(Strip(s))
  {
    ParseLiteral(Strip(s))
  }

  /** `int()` on text that is already stripped. */
  function ParseLiteral(t: string): (r: Option<int>)
    ensures r.Some? <==> IntLiteral(t)
    ensures r.Some? && r.value < 0 ==> Negative(t)
  {
    if t == [] then None
    else if t[0] == '-' || t[0] == '+' then
      var digits := t[1..];
      if digits != [] && AllDigits(digits)
      then (var v: int := DigitsValue(digits); Some(if t[0] == '-' then -v else v))
      else None
    else if AllDigits(t) then Some(DigitsValue(t))
    else None
  }

  /** `int(str(n)) == n` */
  lemma ParseIntRoundTrip(n: int)
    ensures ParseInt(IntDecimal(n)) == Some(n)
  {
    if n < 0 {
      var m: nat := -n;
      NegativeRoundTrip(m);
      assert -(m as int) == n;
    } else {
      NaturalRoundTrip(n);
    }
  }

  /** `int(str(-m)) == -m` for a positive `m` */
  lemma NegativeRoundTrip(m: nat)
    requires m > 0
    ensures ParseInt(IntDecimal(-(m as int))) == Some(-(m as int))
  {
    NegativeDecimal(m);
    MinusDecimal(m);
  }

  /** `str(-m)` is a minus sign followed by `str(m)`. */
  lemma NegativeDecimal(m: nat)
    requires m > 0
    ensures IntDecimal(-(m as int)) == "-" + Decimal(m)
  {
  }

  /** `int("-" + str(m)) == -m` */
  lemma MinusDecimal(m: nat)
    ensures ParseInt("-" + Decimal(m)) == Some(-(m as int))
  {
    DecimalRoundTrip(m);
    MinusDigits(Decimal(m));
  }

  /** A minus sign followed by digits parses to the negated digits' value. */
  lemma MinusDigits(d: string)
    requires d != [] && AllDigits(d)
    ensures ParseInt("-" + d) == Some(-(DigitsValue(d) as int))
  {
    SignedDigits(d);
    MinusStripped(d);
  }

  /** A minus sign followed by digits has no whitespace at either end. */
  lemma SignedDigits(d: string)
    requires d != [] && AllDigits(d)
    ensures var s := "-" + d; Stripped(s) && |s| >= 2 && s[0] == '-' && s[1..] == d
  {
    var s := "-" + d;
    assert s[|s| - 1] == d[|d| - 1];
    assert IsDigit(d[|d| - 1]);
  }

  /** A stripped minus sign and digits parse to the negated digits' value. */
  lemma MinusStripped(d: string)
    requires d != [] && AllDigits(d) && Stripped("-" + d) && ("-" + d)[1..] == d
    ensures ParseInt("-" + d) == Some(-(DigitsValue(d) as int))
  {
    StripStable("-" + d);
  }

  /** `int(str(n)) == n` for a non-negative `n` */
  lemma NaturalRoundTrip(n: nat)
    ensures ParseInt(IntDecimal(n)) == Some(n)
  {
    assert IntDecimal(n) == Decimal(n);
    DecimalRoundTrip(n);
    PlainDigits(Decimal(n));
  }

  /** Digits alone parse to their value. */
  lemma PlainDigits(d: string)
    requires d != [] && AllDigits(d)
    ensures ParseInt(d) == Some(DigitsValue(d) as int)
  {
    assert !IsSpace(d[0]) && !IsSpace(d[|d| - 1]);
    StripStable(d);
    assert !(d[0] == '-' || d[0] == '+');
  }
}
