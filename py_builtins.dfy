/** The Python built-ins the completion builders and the venv script rely on:
    the exceptions they raise or catch, str.join, str.split with a one-character
    separator, str.splitlines()[0], str.startswith, str(n) and int(s) on
    non-negative decimal numbers. */
module PyBuiltins {

  /** The exceptions that the modelled code raises, or lets escape. */
  datatype Exception = ValueError | KeyError | IndexError | AssertionError | OSError

  /** A value, or the exception that was raised instead of returning it. */
  datatype Result<+T> = Success(value: T) | Failure(error: Exception)

  datatype Option<+T> = None | Some(value: T)

  predicate StartsWith(s: string, prefix: string) {
    |prefix| <= |s| && s[..|prefix|] == prefix
  }

  predicate EndsWith(s: string, suffix: string) {
    |suffix| <= |s| && s[|s| - |suffix|..] == suffix
  }

  // ---------------------------------------------------------------------------
  // Decimal numbers: str(n) and int(s)

  predicate IsDigit(c: char) {
    '0' <= c <= '9'
  }

  predicate AllDigits(s: string) {
    forall i :: 0 <= i < |s| ==> IsDigit(s[i])
  }

  /** The way str(n) writes a non-negative number: no leading zero except for "0" itself. */
  predicate Canonical(s: string) {
    |s| > 0 && AllDigits(s) && (|s| > 1 ==> s[0] != '0')
  }

  function DigitChar(d: nat): (c: char)
    requires d < 10
    ensures IsDigit(c) && c as int - 48 == d
  {
    (48 + d) as char
  }

  function DigitValue(c: char): (d: nat)
    requires IsDigit(c)
    ensures d < 10 && DigitChar(d) == c
  {
    c as int - 48
  }

  /** str(n) for n >= 0. */
  function NatToString(n: nat): (s: string)
    ensures Canonical(s)
    ensures s[0] == '0' <==> n == 0
  {
    if n < 10 then [DigitChar(n)] else NatToString(n / 10) + [DigitChar(n % 10)]
  }

  /** The value of a string of decimal digits, most significant first. */
  function DigitsValue(s: string): nat
    requires AllDigits(s)
  {
    if s == [] then 0 else DigitsValue(s[..|s| - 1]) * 10 + DigitValue(s[|s| - 1])
  }

  /** int(s) on the strings it accepts as non-negative decimals; ValueError otherwise. */
  function ParseNat(s: string): (r: Result<nat>)
    ensures r.Success? <==> s != [] && AllDigits(s)
    ensures r.Failure? ==> r.error == ValueError
  {
    if s != [] && AllDigits(s) then Success(DigitsValue(s)) else Failure(ValueError)
  }

  /** int(str(n)) == n. */
  lemma {:induction false} ParseNatToString(n: nat)
    ensures ParseNat(NatToString(n)) == Success(n)
  {
    var s := NatToString(n);
    assert s[..|s| - 1] + [s[|s| - 1]] == s;
    if n < 10 {
      assert s[..|s| - 1] == [];
      assert DigitsValue(s) == DigitValue(s[0]) == n;
    } else {
      ParseNatToString(n / 10);
      assert s[..|s| - 1] == NatToString(n / 10);
    }
  }

  lemma {:induction false} ZeroDigitsValue(s: string)
    requires AllDigits(s) && s != []
    requires DigitsValue(s) == 0
    ensures s[0] == '0'
  {
    if |s| > 1 {
      ZeroDigitsValue(s[..|s| - 1]);
    } else {
      assert DigitChar(DigitValue(s[0])) == s[0];
    }
  }

  /** str(int(s)) == s for every string that str could have written. */
  lemma {:induction false} NatToStringOfParse(s: string)
    requires Canonical(s)
    ensures ParseNat(s).Success? && NatToString(ParseNat(s).value) == s
  {
    var p, c := s[..|s| - 1], s[|s| - 1];
    assert s == p + [c];
    if p == [] {
      assert NatToString(DigitValue(c)) == [c];
    } else {
      assert p[0] == s[0];
      assert Canonical(p);
      NatToStringOfParse(p);
      if DigitsValue(p) == 0 {
        ZeroDigitsValue(p);
        assert false;
      }
      var n := DigitsValue(s);
      assert n / 10 == DigitsValue(p) && n % 10 == DigitValue(c);
    }
  }

  // ---------------------------------------------------------------------------
  // sep.join(parts) and s.split(sep)

  function TotalLength(parts: seq<string>): nat {
    if parts == [] then 0 else |parts[0]| + TotalLength(parts[1..])
  }

  /** sep.join(parts) */
  function Join(parts: seq<string>, sep: string): (r: string)
    ensures parts == [] ==> r == ""
    ensures |parts| == 1 ==> r == parts[0]
    ensures |r| == TotalLength(parts) + if parts == [] then 0 else (|parts| - 1) * |sep|
  {
    if parts == [] then ""
    else if |parts| == 1 then parts[0]
    else parts[0] + sep + Join(parts[1..], sep)
  }

  /** s.split(sep) for a one-character separator: the pieces between the separators,
      empty pieces included, so that there is always at least one. */
  function Split(s: string, sep: char): (r: seq<string>)
    ensures |r| >= 1
    ensures forall i :: 0 <= i < |r| ==> sep !in r[i]
  {
    if s == [] then [""]
    else
      var rest := Split(s[1..], sep);
      if s[0] == sep then [""] + rest else [[s[0]] + rest[0]] + rest[1..]
  }

  /** Joining the pieces again with the separator gives back the string. */
  lemma {:induction false} JoinSplit(s: string, sep: char)
    ensures Join(Split(s, sep), [sep]) == s
  {
    if s != [] {
      var rest := Split(s[1..], sep);
      JoinSplit(s[1..], sep);
      if s[0] != sep && |rest| > 1 {
        assert Join(rest, [sep]) == rest[0] + [sep] + Join(rest[1..], [sep]);
      }
    }
  }

  lemma {:induction false} SplitWithoutSep(s: string, sep: char)
    requires sep !in s
    ensures Split(s, sep) == [s]
  {
    if s != [] {
      SplitWithoutSep(s[1..], sep);
      assert [s[0]] + s[1..] == s;
    }
  }

  lemma {:induction false} SplitAfterPiece(a: string, sep: char, t: string)
    requires sep !in a
    ensures Split(a + [sep] + t, sep) == [a] + Split(t, sep)
  {
    if a != [] {
      SplitAfterPiece(a[1..], sep, t);
      assert (a + [sep] + t)[1..] == a[1..] + [sep] + t;
      assert [a[0]] + a[1..] == a;
    } else {
      assert (a + [sep] + t)[1..] == t;
    }
  }

  /** Splitting a join gives back the pieces, when no piece holds the separator. */
  lemma {:induction false} SplitJoin(parts: seq<string>, sep: char)
    requires parts != []
    requires forall i :: 0 <= i < |parts| ==> sep !in parts[i]
    ensures Split(Join(parts, [sep]), sep) == parts
  {
    if |parts| == 1 {
      SplitWithoutSep(parts[0], sep);
    } else {
      SplitJoin(parts[1..], sep);
      SplitAfterPiece(parts[0], sep, Join(parts[1..], [sep]));
    }
  }

  // ---------------------------------------------------------------------------
  // s.splitlines()[0]

  /** The characters str.splitlines treats as line boundaries. */
  predicate IsLineBreak(c: char) {
    var k := c as int;
    k == 0x0A || k == 0x0B || k == 0x0C || k == 0x0D || k == 0x1C || k == 0x1D
    || k == 0x1E || k == 0x85 || k == 0x2028 || k == 0x2029
  }

  /** Index of the first line boundary of s, or |s| when there is none. */
  function LineEnd(s: string): (k: nat)
    ensures k <= |s|
    ensures forall i :: 0 <= i < k ==> !IsLineBreak(s[i])
    ensures k < |s| ==> IsLineBreak(s[k])
  {
    if s == [] || IsLineBreak(s[0]) then 0 else 1 + LineEnd(s[1..])
  }

  /** s.splitlines()[0]: the empty string has no lines, so indexing fails with IndexError. */
  function FirstLine(s: string): (r: Result<string>)
    ensures r.Failure? <==> s == ""
    ensures r.Failure? ==> r.error == IndexError
    ensures r.Success? ==> StartsWith(s, r.value)
    ensures r.Success? ==> forall i :: 0 <= i < |r.value| ==> !IsLineBreak(r.value[i])
    ensures r.Success? && |r.value| < |s| ==> IsLineBreak(s[|r.value|])
  {
    if s == "" then Failure(IndexError) else Success(s[..LineEnd(s)])
  }
}
