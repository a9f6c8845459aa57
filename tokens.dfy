/**
  The two C library routines the bit-order parser rests on: `strtok(s, ",")`,
  which yields the non-empty comma-free fields of a string, and `atoi`, which
  reads an optionally signed decimal prefix after leading white space and
  gives 0 when there is none.
*/
module Tokens {

  /** Length of the leading run of characters other than ','. */
  function FieldLength(s: string): (n: nat)
    ensures n <= |s|
    ensures forall i :: 0 <= i < n ==> s[i] != ','
    ensures n < |s| ==> s[n] == ','
  {
    if s == [] || s[0] == ',' then 0 else 1 + FieldLength(s[1..])
  }

  /** The fields `strtok(s, ",")` returns one after another; empty fields are skipped. */
  function Fields(s: string): (r: seq<string>)
    ensures forall i :: 0 <= i < |r| ==> r[i] != [] && ',' !in r[i]
    decreases |s|
  {
    if s == [] then []
    else if s[0] == ',' then Fields(s[1..])
    else
      var n := FieldLength(s);
      assert ',' !in s[..n] by {
        forall i | 0 <= i < n ensures s[..n][i] != ',' { }
      }
      [s[..n]] + Fields(s[n..])
  }

  /** The fields written back with one comma between neighbours. */
  function Join(fields: seq<string>): string
  {
    if fields == [] then []
    else if |fields| == 1 then fields[0]
    else fields[0] + [','] + Join(fields[1..])
  }

  lemma {:induction false} FieldLengthOfField(field: string, rest: string)
    requires ',' !in field
    requires rest == [] || rest[0] == ','
    ensures FieldLength(field + rest) == |field|
  {
    if field != [] {
      assert (field + rest)[1..] == field[1..] + rest;
      FieldLengthOfField(field[1..], rest);
    } else {
      assert field + rest == rest;
    }
  }

  /** Splitting a comma-joined list of non-empty comma-free fields gives the fields back. */
  lemma {:induction false} FieldsOfJoin(fields: seq<string>)
    requires forall i :: 0 <= i < |fields| ==> fields[i] != [] && ',' !in fields[i]
    ensures Fields(Join(fields)) == fields
  {
    if fields != [] {
      var f := fields[0];
      var rest := if |fields| == 1 then [] else [','] + Join(fields[1..]);
      var s := Join(fields);
      assert s == f + rest;
      FieldLengthOfField(f, rest);
      assert s[0] == f[0];
      assert s[..|f|] == f;
      assert s[|f|..] == rest;
      if |fields| > 1 {
        assert rest[1..] == Join(fields[1..]);
        FieldsOfJoin(fields[1..]);
      }
    }
  }

  /** A run that reaches a comma inside a stops there, whatever follows a. */
  lemma {:induction false} FieldLengthWithin(a: string, rest: string)
    requires FieldLength(a) < |a|
    ensures FieldLength(a + rest) == FieldLength(a)
  {
    if a[0] != ',' {
      assert (a + rest)[1..] == a[1..] + rest;
      FieldLengthWithin(a[1..], rest);
    }
  }

  /** A comma-free string is one field, or none when it is empty. */
  lemma FieldsOfCommaFree(a: string)
    requires ',' !in a
    ensures Fields(a) == if a == [] then [] else [a]
  {
    if a != [] {
      FieldLengthOfField(a, []);
      assert a + [] == a;
      assert a[|a|..] == [];
    }
  }

  /** The fields on either side of a comma are the fields of the whole, so empty fields are skipped. */
  lemma {:induction false} FieldsSplit(a: string, b: string)
    ensures Fields(a + [','] + b) == Fields(a) + Fields(b)
    decreases |a|
  {
    var s := a + [','] + b;
    if a == [] {
      assert s[1..] == b;
    } else if a[0] == ',' {
      assert s[1..] == a[1..] + [','] + b;
      FieldsSplit(a[1..], b);
    } else if ',' in a {
      var n := FieldLength(a);
      FirstFieldSplit(a, [','] + b);
      assert s == a + ([','] + b);
      assert a[n..] + ([','] + b) == a[n..] + [','] + b;
      FieldsSplit(a[n..], b);
    } else {
      LastFieldSplit(a, b);
      FieldsOfCommaFree(a);
    }
  }

  /** When a holds a comma, its first field is also the first field of a followed by anything. */
  lemma FirstFieldSplit(a: string, rest: string)
    requires a != [] && a[0] != ',' && ',' in a
    ensures FieldLength(a) < |a|
    ensures Fields(a + rest) == [a[..FieldLength(a)]] + Fields(a[FieldLength(a)..] + rest)
  {
    var n := FieldLength(a);
    var i :| 0 <= i < |a| && a[i] == ',';
    assert n <= i;
    FieldLengthWithin(a, rest);
    var s := a + rest;
    assert s[..n] == a[..n];
    assert s[n..] == a[n..] + rest;
  }

  /** A comma-free field followed by a comma is one field, then the fields after the comma. */
  lemma LastFieldSplit(a: string, b: string)
    requires a != [] && ',' !in a
    ensures Fields(a + [','] + b) == [a] + Fields(b)
  {
    var s := a + ([','] + b);
    FieldLengthOfField(a, [','] + b);
    assert s[..|a|] == a;
    assert s[|a|..] == [','] + b;
    assert s[|a|..][1..] == b;
    assert a + [','] + b == s;
  }

  /** Two commas in a row read like one: the empty field between them yields no token. */
  lemma DoubledComma(a: string, b: string)
    ensures Fields(a + [',', ','] + b) == Fields(a + [','] + b)
  {
    assert a + [',', ','] + b == a + [','] + ([','] + b);
    FieldsSplit(a, [','] + b);
    assert [','] + b == [] + [','] + b;
    FieldsSplit([], b);
    FieldsSplit(a, b);
  }

  // ---------------------------------------------------------------------------
  // atoi

  predicate IsSpace(c: char)
  {
    c == ' ' || c == '\t' || c == '\n' || c == '\r' || c == '\U{0B}' || c == '\U{0C}'
  }

  predicate IsDigit(c: char)
  {
    '0' as int <= c as int <= '9' as int
  }

  function SkipSpaces(s: string): (r: string)
    ensures r == [] || !IsSpace(r[0])
    ensures |r| <= |s|
    ensures forall i :: 0 <= i < |s| - |r| ==> IsSpace(s[i])
  {
    if s != [] && IsSpace(s[0]) then SkipSpaces(s[1..]) else s
  }

  /** The longest prefix of s made of decimal digits. */
  function DigitPrefix(s: string): (r: string)
    ensures |r| <= |s|
    ensures forall i :: 0 <= i < |r| ==> r[i] == s[i] && IsDigit(r[i])
    ensures |r| < |s| ==> !IsDigit(s[|r|])
  {
    if s != [] && IsDigit(s[0]) then [s[0]] + DigitPrefix(s[1..]) else []
  }

  /** The number a string of decimal digits denotes. */
  function DigitsValue(ds: string): nat
    requires forall i :: 0 <= i < |ds| ==> IsDigit(ds[i])
  {
    if ds == [] then 0
    else
      var last := ds[|ds| - 1];
      assert IsDigit(last);
      10 * DigitsValue(ds[..|ds| - 1]) + (last as int - '0' as int)
  }

  /** atoi: white space, an optional sign, then the leading decimal digits (0 when there are none). */
  function Atoi(s: string): (r: int)
    ensures (s == [] || (!IsSpace(s[0]) && !IsDigit(s[0]) && s[0] != '-' && s[0] != '+')) ==> r == 0
  {
    SignedValue(SkipSpaces(s))
  }

  /** An optional sign, then the leading decimal digits. */
  function SignedValue(t: string): int
  {
    if t != [] && t[0] == '-' then -(DigitsValue(DigitPrefix(t[1..])) as int)
    else if t != [] && t[0] == '+' then DigitsValue(DigitPrefix(t[1..]))
    else DigitsValue(DigitPrefix(t))
  }

  /** The decimal numeral of n, without sign or leading zeros. */
  function Decimal(n: nat): (r: string)
    ensures r != [] && ',' !in r
    ensures forall i :: 0 <= i < |r| ==> IsDigit(r[i])
  {
    if n < 10 then [('0' as int + n) as char]
    else Decimal(n / 10) + [('0' as int + n % 10) as char]
  }

  lemma {:induction false} DigitsValueOfDecimal(n: nat)
    ensures DigitsValue(Decimal(n)) == n
  {
    if n >= 10 {
      var d := Decimal(n);
      assert d[..|d| - 1] == Decimal(n / 10);
      DigitsValueOfDecimal(n / 10);
    }
  }

  /** atoi reads back the numeral of n. */
  lemma AtoiOfDecimal(n: nat)
    ensures Atoi(Decimal(n)) == n
  {
    assert Decimal(n) + [] == Decimal(n);
    AtoiPrefix(n, []);
  }

  /** atoi reads the leading numeral and ignores whatever follows its last digit. */
  lemma AtoiPrefix(n: nat, rest: string)
    requires rest == [] || !IsDigit(rest[0])
    ensures Atoi(Decimal(n) + rest) == n
  {
    AtoiOfDigits(Decimal(n), rest);
    DigitsValueOfDecimal(n);
  }

  /** A leading '+' is skipped. */
  lemma AtoiPlus(n: nat, rest: string)
    requires rest == [] || !IsDigit(rest[0])
    ensures Atoi(['+'] + Decimal(n) + rest) == n
  {
    SignedDigits('+', Decimal(n), rest);
    DigitsValueOfDecimal(n);
  }

  /** atoi reads back the numeral of n with a minus sign as -n. */
  lemma AtoiOfNegativeDecimal(n: nat)
    ensures Atoi(['-'] + Decimal(n)) == -(n as int)
  {
    assert ['-'] + Decimal(n) == ['-'] + Decimal(n) + [];
    SignedDigits('-', Decimal(n), []);
    DigitsValueOfDecimal(n);
  }

  /** A non-empty run of digits followed by a non-digit reads as the number the digits denote. */
  lemma AtoiOfDigits(d: string, rest: string)
    requires d != [] && forall i :: 0 <= i < |d| ==> IsDigit(d[i])
    requires rest == [] || !IsDigit(rest[0])
    ensures Atoi(d + rest) == DigitsValue(d)
  {
    var s := d + rest;
    assert s[0] == d[0];
    AtoiUnsigned(s);
    DigitPrefixOfDigits(d, rest);
  }

  /** A string that starts with a digit: atoi takes its digit prefix. */
  lemma AtoiUnsigned(s: string)
    requires s != [] && IsDigit(s[0])
    ensures Atoi(s) == DigitsValue(DigitPrefix(s))
  {
    assert SkipSpaces(s) == s;
  }

  /** A string that starts with a sign: atoi takes the digit prefix after it. */
  lemma AtoiSigned(s: string)
    requires s != [] && (s[0] == '+' || s[0] == '-')
    ensures Atoi(s) == if s[0] == '-' then -(DigitsValue(DigitPrefix(s[1..])) as int) else DigitsValue(DigitPrefix(s[1..]))
  {
    assert SkipSpaces(s) == s;
  }

  /** After a sign character, atoi takes the digit prefix of what follows. */
  lemma SignedDigits(sign: char, d: string, rest: string)
    requires sign == '+' || sign == '-'
    requires forall i :: 0 <= i < |d| ==> IsDigit(d[i])
    requires rest == [] || !IsDigit(rest[0])
    ensures Atoi([sign] + d + rest) == if sign == '-' then -(DigitsValue(d) as int) else DigitsValue(d)
  {
    var t := d + rest;
    var s := [sign] + t;
    assert s[1..] == t;
    AtoiSigned(s);
    DigitPrefixOfDigits(d, rest);
    assert [sign] + d + rest == s;
  }

  /** Leading white space does not change what atoi reads. */
  lemma AtoiSpace(c: char, s: string)
    requires IsSpace(c)
    ensures Atoi([c] + s) == Atoi(s)
  {
    var u := [c] + s;
    assert u[1..] == s;
    assert SkipSpaces(u) == SkipSpaces(s);
  }

  /** The digit prefix of a run of digits followed by a non-digit is the run. */
  lemma {:induction false} DigitPrefixOfDigits(d: string, rest: string)
    requires forall i :: 0 <= i < |d| ==> IsDigit(d[i])
    requires rest == [] || !IsDigit(rest[0])
    ensures DigitPrefix(d + rest) == d
  {
    if d != [] {
      assert (d + rest)[1..] == d[1..] + rest;
      DigitPrefixOfDigits(d[1..], rest);
    } else {
      assert d + rest == rest;
    }
  }
}
