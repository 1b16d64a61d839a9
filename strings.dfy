/** The string renderings the core relies on: Java's decimal rendering of an
    integer (`Integer.toString`, string concatenation of an `int`) and the
    "items joined by a separator, no trailing separator" shape that
    `TupleDesc.toString` and `Tuple.toString` build with their loops. */
module Strings {

  predicate IsDigit(c: char) { '0' <= c <= '9' }

  function DigitChar(d: nat): (c: char)
    requires d < 10
    ensures IsDigit(c) && c as int - '0' as int == d
  {
    ('0' as int + d) as char
  }

  function DigitValue(c: char): (d: nat)
    requires IsDigit(c)
    ensures d < 10 && DigitChar(d) == c && (forall e: nat :: e < 10 && DigitChar(e) == c ==> e == d)
  {
    (c as int - '0' as int) as nat
  }

  /** Decimal digits of `n`, most significant first, no leading zeros. */
  function NatToString(n: nat): (s: string)
    ensures |s| >= 1
    decreases n
  {
    if n < 10 then [DigitChar(n)] else NatToString(n / 10) + [DigitChar(n % 10)]
  }

  /** Java's decimal rendering of an integer: a '-' before the digits of a negative value. */
  function IntToString(x: int): (s: string)
    ensures |s| >= 1
  {
    if x < 0 then "-" + NatToString(-x) else NatToString(x)
  }

  predicate AllDigits(s: string) { forall i :: 0 <= i < |s| ==> IsDigit(s[i]) }

  /** Only digits make up the rendering of a natural number. */
  lemma {:induction false} NatToStringDigits(n: nat)
    ensures AllDigits(NatToString(n))
    decreases n
  {
    if n >= 10 {
      NatToStringDigits(n / 10);
    }
  }

  /** The rendering of an integer is digits, preceded by '-' exactly when it is negative. */
  lemma IntToStringChars(x: int)
    ensures var s := IntToString(x);
      && (s[0] == '-' <==> x < 0)
      && forall i :: 0 <= i < |s| ==> IsDigit(s[i]) || (i == 0 && s[i] == '-')
  {
    NatToStringDigits(if x < 0 then -x else x);
    if x < 0 {
      var s := IntToString(x);
      assert forall i :: 1 <= i < |s| ==> s[i] == NatToString(-x)[i - 1];
    }
  }

  /** Reads a string of decimal digits back as a number. */
  function ParseNat(s: string): nat
    requires AllDigits(s)
  {
    if s == [] then 0 else ParseNat(s[..|s| - 1]) * 10 + DigitValue(s[|s| - 1])
  }

  /** Reads Java's decimal rendering back. */
  function ParseInt(s: string): int
    requires |s| >= 1
    requires s[0] == '-' ==> AllDigits(s[1..])
    requires s[0] != '-' ==> AllDigits(s)
  {
    if s[0] == '-' then -(ParseNat(s[1..]) as int) else ParseNat(s)
  }

  lemma {:induction false} ParseNatToString(n: nat)
    ensures AllDigits(NatToString(n)) && ParseNat(NatToString(n)) == n
    decreases n
  {
    NatToStringDigits(n);
    if n >= 10 {
      var s := NatToString(n);
      var init := NatToString(n / 10);
      ParseNatToString(n / 10);
      assert s == init + [DigitChar(n % 10)];
      assert s[..|s| - 1] == init;
      assert ParseNat(s) == ParseNat(init) * 10 + DigitValue(DigitChar(n % 10));
    }
  }

  /** The decimal rendering of an integer determines the integer. */
  lemma ParseIntToString(x: int)
    ensures var s := IntToString(x);
      && (s[0] == '-' ==> AllDigits(s[1..]))
      && (s[0] != '-' ==> AllDigits(s))
      && ParseInt(s) == x
  {
    var s := IntToString(x);
    if x < 0 {
      var d := NatToString(-x);
      ParseNatToString(-x);
      assert s == "-" + d;
      assert s[1..] == d;
    } else {
      ParseNatToString(x);
      assert s == NatToString(x);
      assert s[0] != '-';
    }
  }

  lemma IntToStringInjective(x: int, y: int)
    requires IntToString(x) == IntToString(y)
    ensures x == y
  {
    ParseIntToString(x);
    ParseIntToString(y);
  }

  /** `parts` joined by `sep`; empty when there are no parts. */
  function Join(sep: string, parts: seq<string>): (s: string)
    decreases |parts|
  {
    if |parts| == 0 then ""
    else if |parts| == 1 then parts[0]
    else Join(sep, parts[..|parts| - 1]) + sep + parts[|parts| - 1]
  }

  /** Where a loop that renders `parts` one at a time stands after `i` of
      them: the first `i` joined, followed by a separator when more follow. */
  predicate JoinedSoFar(sep: string, parts: seq<string>, i: nat, str: string)
    requires i <= |parts|
  {
    str == if i == 0 then "" else Join(sep, parts[..i]) + (if i < |parts| then sep else "")
  }

  /** Rendering part `i`, with a separator unless it is the last, advances the loop. */
  lemma JoinedSoFarStep(sep: string, parts: seq<string>, i: nat, str: string)
    requires i < |parts| && JoinedSoFar(sep, parts, i, str)
    ensures JoinedSoFar(sep, parts, i + 1, str + parts[i] + (if i + 1 < |parts| then sep else ""))
  {
    assert parts[..i + 1][..i] == parts[..i];
  }

  /** Once every part is rendered the loop holds the joined string. */
  lemma JoinedSoFarDone(sep: string, parts: seq<string>, str: string)
    requires JoinedSoFar(sep, parts, |parts|, str)
    ensures str == Join(sep, parts)
  {
    assert parts[..|parts|] == parts;
  }

  /** The joined string ends with the last part: no trailing separator is added. */
  lemma JoinEndsWithLast(sep: string, parts: seq<string>)
    requires |parts| >= 1
    ensures var s := Join(sep, parts);
      |s| >= |parts[|parts| - 1]| && s[|s| - |parts[|parts| - 1]|..] == parts[|parts| - 1]
  {
  }

  /** The joined string starts with the first part. */
  lemma {:induction false} JoinStartsWithFirst(sep: string, parts: seq<string>)
    requires |parts| >= 1
    ensures var s := Join(sep, parts); |s| >= |parts[0]| && s[..|parts[0]|] == parts[0]
    decreases |parts|
  {
    if |parts| > 1 {
      var init := parts[..|parts| - 1];
      JoinStartsWithFirst(sep, init);
      assert init[0] == parts[0];
    }
  }

  /** Joining two non-empty lists of parts puts exactly one separator between them. */
  lemma {:induction false} JoinAppend(sep: string, a: seq<string>, b: seq<string>)
    requires |a| >= 1 && |b| >= 1
    ensures Join(sep, a + b) == Join(sep, a) + sep + Join(sep, b)
    decreases |b|
  {
    if |b| == 1 {
      assert (a + b)[..|a + b| - 1] == a;
    } else {
      var b' := b[..|b| - 1];
      JoinAppend(sep, a, b');
      assert (a + b)[..|a + b| - 1] == a + b';
    }
  }

  /** Length of the joined string: the parts plus one separator between each two. */
  lemma {:induction false} JoinLength(sep: string, parts: seq<string>)
    requires |parts| >= 1
    ensures |Join(sep, parts)| == SumLengths(parts) + (|parts| - 1) * |sep|
    decreases |parts|
  {
    if |parts| > 1 {
      JoinLength(sep, parts[..|parts| - 1]);
      SumLengthsSnoc(parts[..|parts| - 1], parts[|parts| - 1]);
      assert parts[..|parts| - 1] + [parts[|parts| - 1]] == parts;
    }
  }

  function SumLengths(parts: seq<string>): nat
  {
    if parts == [] then 0 else |parts[0]| + SumLengths(parts[1..])
  }

  lemma {:induction false} SumLengthsSnoc(parts: seq<string>, p: string)
    ensures SumLengths(parts + [p]) == SumLengths(parts) + |p|
  {
    if parts != [] {
      SumLengthsSnoc(parts[1..], p);
      assert (parts + [p])[1..] == parts[1..] + [p];
    }
  }

  /** Occurrences of `c` in `s`. */
  function CountChar(s: string, c: char): nat
  {
    if s == [] then 0 else (if s[0] == c then 1 else 0) + CountChar(s[1..], c)
  }

  lemma {:induction false} CountCharAppend(a: string, b: string, c: char)
    ensures CountChar(a + b, c) == CountChar(a, c) + CountChar(b, c)
  {
    if a == [] {
      assert a + b == b;
    } else {
      assert (a + b)[0] == a[0];
      assert (a + b)[1..] == a[1..] + b;
      CountCharAppend(a[1..], b, c);
    }
  }

  lemma {:induction false} CountCharAbsent(s: string, c: char)
    requires c !in s
    ensures CountChar(s, c) == 0
  {
    if s != [] {
      assert s[1..] <= s[1..];
      assert forall x :: x in s[1..] ==> x in s;
      CountCharAbsent(s[1..], c);
    }
  }

  /** When no part contains the one-character separator `c`, the joined
      string contains exactly one `c` between each two neighbouring parts. */
  lemma {:induction false} JoinCountSeparators(c: char, parts: seq<string>)
    requires |parts| >= 1
    requires forall i :: 0 <= i < |parts| ==> c !in parts[i]
    ensures CountChar(Join([c], parts), c) == |parts| - 1
    decreases |parts|
  {
    var last := parts[|parts| - 1];
    CountCharAbsent(last, c);
    if |parts| > 1 {
      var init := parts[..|parts| - 1];
      JoinCountSeparators(c, init);
      CountCharAppend(Join([c], init), [c], c);
      CountCharAppend(Join([c], init) + [c], last, c);
      assert CountChar([c], c) == 1 by {
        assert [c][1..] == [];
      }
    }
  }
}
