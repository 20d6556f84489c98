/**
 * String utilities the application gets from JavaScript: the default `Array.prototype.sort`
 * order on strings, de-duplication through a `Set`, `Number.prototype.toString` on integers
 * and `parseInt`.
 */
module Text {
  import opened Common

  // ---------------------------------------------------------------------------
  // Lexicographic order (the default comparator of `sort` on strings)
  // ---------------------------------------------------------------------------

  /** a sorts before or equal to b, comparing character codes left to right. */
  predicate StrLe(a: string, b: string)
    decreases |a|
  {
    |a| == 0 || (|b| > 0 && (a[0] < b[0] || (a[0] == b[0] && StrLe(a[1..], b[1..]))))
  }

  lemma {:induction false} StrLeTotal(a: string, b: string)
    ensures StrLe(a, b) || StrLe(b, a)
    decreases |a|
  {
    if |a| > 0 && |b| > 0 && a[0] == b[0] {
      StrLeTotal(a[1..], b[1..]);
    }
  }

  lemma {:induction false} StrLeAntisymmetric(a: string, b: string)
    requires StrLe(a, b) && StrLe(b, a)
    ensures a == b
    decreases |a|
  {
    if |a| > 0 {
      StrLeAntisymmetric(a[1..], b[1..]);
      assert a == [a[0]] + a[1..] && b == [b[0]] + b[1..];
    }
  }

  lemma {:induction false} StrLeTransitive(a: string, b: string, c: string)
    requires StrLe(a, b) && StrLe(b, c)
    ensures StrLe(a, c)
    decreases |a|
  {
    if |a| > 0 && a[0] == b[0] && b[0] == c[0] {
      StrLeTransitive(a[1..], b[1..], c[1..]);
    }
  }

  predicate Sorted(s: seq<string>)
  {
    forall i, j :: 0 <= i < j < |s| ==> StrLe(s[i], s[j])
  }

  /** The tail of a sorted sequence is sorted. */
  lemma SortedTail(s: seq<string>)
    requires Sorted(s) && |s| > 0
    ensures Sorted(s[1..])
  {
    forall i, j | 0 <= i < j < |s[1..]| ensures StrLe(s[1..][i], s[1..][j]) {
      assert s[1..][i] == s[i + 1] && s[1..][j] == s[j + 1];
    }
  }

  /** The elements of a non-empty sequence are its head and those of its tail. */
  lemma MultisetHeadTail<T>(s: seq<T>)
    requires |s| > 0
    ensures multiset(s) == multiset{s[0]} + multiset(s[1..])
    ensures multiset(s[1..]) == multiset(s) - multiset{s[0]}
  {
    assert s == [s[0]] + s[1..];
  }

  /** Inserts x before the first element it sorts before or equal to. */
  function Insert(x: string, s: seq<string>): (r: seq<string>)
    ensures multiset(r) == multiset(s) + multiset{x}
    decreases |s|
  {
    if |s| == 0 then [x]
    else if StrLe(x, s[0]) then
      [x] + s
    else
      assert s == [s[0]] + s[1..];
      [s[0]] + Insert(x, s[1..])
  }

  /** A head no greater than any element of a sorted tail gives a sorted sequence. */
  lemma SortedCons(h: string, t: seq<string>)
    requires Sorted(t)
    requires forall k :: 0 <= k < |t| ==> StrLe(h, t[k])
    ensures Sorted([h] + t)
  {
    var r := [h] + t;
    forall i, j | 0 <= i < j < |r| ensures StrLe(r[i], r[j]) {
      if i == 0 {
        assert r[j] == t[j - 1];
      } else {
        assert r[i] == t[i - 1] && r[j] == t[j - 1];
      }
    }
  }

  /** Inserting into a sorted sequence keeps it sorted. */
  lemma {:induction false} InsertSorted(x: string, s: seq<string>)
    requires Sorted(s)
    ensures Sorted(Insert(x, s))
    decreases |s|
  {
    if |s| == 0 {
    } else if StrLe(x, s[0]) {
      forall k | 0 <= k < |s| ensures StrLe(x, s[k]) {
        if k > 0 { StrLeTransitive(x, s[0], s[k]); }
      }
      SortedCons(x, s);
    } else {
      SortedTail(s);
      InsertSorted(x, s[1..]);
      var rest := Insert(x, s[1..]);
      StrLeTotal(x, s[0]);
      forall k | 0 <= k < |rest| ensures StrLe(s[0], rest[k]) {
        var y := rest[k];
        assert y in multiset(rest);
        if y != x {
          assert y in multiset(s[1..]);
          var m :| 0 <= m < |s[1..]| && s[1..][m] == y;
          assert s[m + 1] == y;
        }
      }
      SortedCons(s[0], rest);
    }
  }

  /** `[...s].sort()`: a sorted permutation of s (insertion sort). */
  function SortedCopy(s: seq<string>): (r: seq<string>)
    ensures Sorted(r)
    ensures multiset(r) == multiset(s)
    decreases |s|
  {
    if |s| == 0 then []
    else
      MultisetHeadTail(s);
      var rest := SortedCopy(s[1..]);
      InsertSorted(s[0], rest);
      Insert(s[0], rest)
  }

  /** The first element of a non-empty sorted sequence is below every element of it. */
  lemma SortedHeadLeast(s: seq<string>, y: string)
    requires Sorted(s) && |s| > 0 && y in s
    ensures StrLe(s[0], y)
  {
    var k :| 0 <= k < |s| && s[k] == y;
    if k == 0 {
      StrLeTotal(y, y);
    }
  }

  /** Two sorted sequences with the same elements, counted with multiplicity, are equal. */
  lemma {:induction false} SortedUnique(a: seq<string>, b: seq<string>)
    requires Sorted(a) && Sorted(b)
    requires multiset(a) == multiset(b)
    ensures a == b
    decreases |a|
  {
    if |a| == 0 {
      assert |multiset(b)| == 0;
    } else {
      assert |b| > 0 by { assert |multiset(b)| == |multiset(a)| == |a|; }
      assert a[0] in multiset(b) && b[0] in multiset(a);
      SortedHeadLeast(a, b[0]);
      SortedHeadLeast(b, a[0]);
      StrLeAntisymmetric(a[0], b[0]);
      MultisetHeadTail(a);
      MultisetHeadTail(b);
      SortedTail(a);
      SortedTail(b);
      SortedUnique(a[1..], b[1..]);
    }
  }

  /**
   * Comparing sorted copies decides whether two lists hold the same elements with the
   * same multiplicities, whatever their order.
   */
  lemma SortedCopyEqIffPermutation(a: seq<string>, b: seq<string>)
    ensures SortedCopy(a) == SortedCopy(b) <==> multiset(a) == multiset(b)
  {
    if multiset(a) == multiset(b) {
      SortedUnique(SortedCopy(a), SortedCopy(b));
    }
  }

  // ---------------------------------------------------------------------------
  // `Array.from(new Set(s)).sort()`
  // ---------------------------------------------------------------------------

  /** Each element occurs at most once. */
  ghost predicate NoDuplicates(s: seq<string>)
  {
    forall x :: multiset(s)[x] <= 1
  }

  /** `Array.from(new Set(s))`: the first occurrence of each element, in order of arrival. */
  function Dedup(s: seq<string>): (r: seq<string>)
    ensures forall x :: x in r <==> x in s
    ensures NoDuplicates(r)
    decreases |s|
  {
    if |s| == 0 then []
    else
      var init := Dedup(s[..|s| - 1]);
      assert s == s[..|s| - 1] + [s[|s| - 1]];
      if s[|s| - 1] in init then init else init + [s[|s| - 1]]
  }

  /** Two equal elements at different positions are counted twice. */
  lemma RepeatCountsTwice(s: seq<string>, i: int, j: int)
    requires 0 <= i < j < |s| && s[i] == s[j]
    ensures multiset(s)[s[i]] >= 2
  {
    assert s == s[..j] + s[j..];
    assert s[i] in s[..j];
    assert s[j] in s[j..];
  }

  /** The distinct elements of s in sorted order. */
  function SortedDistinct(s: seq<string>): (r: seq<string>)
    ensures Sorted(r) && NoDuplicates(r)
    ensures forall x :: x in r <==> x in s
    ensures forall i, j :: 0 <= i < j < |r| ==> r[i] != r[j]
  {
    var d := Dedup(s);
    var r := SortedCopy(d);
    assert forall x :: x in r <==> x in multiset(d);
    forall i, j | 0 <= i < j < |r| ensures r[i] != r[j] {
      if r[i] == r[j] {
        RepeatCountsTwice(r, i, j);
      }
    }
    r
  }

  // ---------------------------------------------------------------------------
  // Decimal notation: `n.toString()` on integers and `parseInt`
  // ---------------------------------------------------------------------------

  predicate IsDigit(c: char)
  {
    '0' <= c <= '9'
  }

  predicate AllDigits(s: string)
  {
    forall i :: 0 <= i < |s| ==> IsDigit(s[i])
  }

  function DigitChar(d: int): (c: char)
    requires 0 <= d < 10
    ensures IsDigit(c) && c as int - '0' as int == d
  {
    ('0' as int + d) as char
  }

  /** The shortest decimal notation of n, most significant digit first. */
  function NatToDecimal(n: nat): (s: string)
    ensures |s| > 0 && AllDigits(s)
    decreases n
  {
    if n < 10 then [DigitChar(n)] else NatToDecimal(n / 10) + [DigitChar(n % 10)]
  }

  /** The value of a string of decimal digits. */
  function DigitsValue(s: string): nat
    requires AllDigits(s)
    decreases |s|
  {
    if |s| == 0 then 0
    else DigitsValue(s[..|s| - 1]) * 10 + (s[|s| - 1] as int - '0' as int)
  }

  lemma {:induction false} NatToDecimalValue(n: nat)
    ensures DigitsValue(NatToDecimal(n)) == n
    decreases n
  {
    if n >= 10 {
      var s := NatToDecimal(n);
      assert s[..|s| - 1] == NatToDecimal(n / 10);
      NatToDecimalValue(n / 10);
    }
  }

  /** `n.toString()` for an integer n. */
  function IntToString(n: int): string
  {
    if n < 0 then "-" + NatToDecimal(-n) else NatToDecimal(n)
  }

  /** The longest prefix of s made of digits. */
  function LeadingDigits(s: string): (d: string)
    ensures d <= s && AllDigits(d)
    ensures |d| < |s| ==> !IsDigit(s[|d|])
    decreases |s|
  {
    if |s| > 0 && IsDigit(s[0]) then [s[0]] + LeadingDigits(s[1..]) else []
  }

  /**
   * `parseInt(s)` without a radix, for decimal text: an optional sign followed by the longest
   * run of digits, or None (NaN) when no digit follows the sign. A "0x" prefix, which
   * `parseInt` would read as hexadecimal, gives 0 here.
   */
  function ParseInt(s: string): (r: Option<int>)
    ensures r.Some? ==> exists k :: 0 <= k < |s| && IsDigit(s[k])
  {
    var neg := |s| > 0 && s[0] == '-';
    var body := if |s| > 0 && (s[0] == '-' || s[0] == '+') then s[1..] else s;
    var d := LeadingDigits(body);
    if |d| == 0 then None
    else
      assert body[0] == s[|s| - |body|];
      var v: int := DigitsValue(d);
      Some(if neg then -v else v)
  }

  /** The run of leading digits stops where the digits do. */
  lemma {:induction false} LeadingDigitsAppend(d: string, rest: string)
    requires AllDigits(d)
    requires |rest| == 0 || !IsDigit(rest[0])
    ensures LeadingDigits(d + rest) == d
    decreases |d|
  {
    if |d| == 0 {
      assert d + rest == rest;
    } else {
      assert (d + rest)[0] == d[0];
      assert (d + rest)[1..] == d[1..] + rest;
      LeadingDigitsAppend(d[1..], rest);
    }
  }

  /** parseInt of unsigned digits followed by a non-digit reads the digits. */
  lemma ParseIntUnsigned(digits: string, rest: string)
    requires |digits| > 0 && AllDigits(digits)
    requires |rest| == 0 || !IsDigit(rest[0])
    ensures ParseInt(digits + rest) == Some(DigitsValue(digits))
  {
    HeadOfConcat(digits, rest);
    LeadingDigitsAppend(digits, rest);
    ParseIntPlain(digits + rest, digits);
  }

  /** Without a sign parseInt reads the run of digits at the start. */
  lemma ParseIntPlain(s: string, d: string)
    requires |s| > 0 && IsDigit(s[0])
    requires LeadingDigits(s) == d && |d| > 0
    ensures ParseInt(s) == Some(DigitsValue(d))
  {
  }

  lemma HeadOfConcat(a: string, b: string)
    requires |a| > 0
    ensures (a + b)[0] == a[0]
  {
  }

  /** After a minus sign parseInt reads the negated run of digits that follows it. */
  lemma ParseIntMinus(s: string, d: string)
    requires |s| > 0 && s[0] == '-'
    requires LeadingDigits(s[1..]) == d && |d| > 0
    ensures ParseInt(s) == Some(-(DigitsValue(d) as int))
  {
  }

  /** parseInt of a minus sign, digits and a non-digit reads the negated digits. */
  lemma ParseIntNegative(digits: string, rest: string)
    requires |digits| > 0 && AllDigits(digits)
    requires |rest| == 0 || !IsDigit(rest[0])
    ensures ParseInt("-" + digits + rest) == Some(-(DigitsValue(digits) as int))
  {
    SignTail(digits + rest);
    LeadingDigitsAppend(digits, rest);
    ParseIntMinus("-" + (digits + rest), digits);
    ConcatAssoc("-", digits, rest);
  }

  lemma ConcatAssoc(a: string, b: string, c: string)
    ensures a + b + c == a + (b + c)
  {
  }

  /** A minus sign put before a text comes first, and the text follows it. */
  lemma SignTail(t: string)
    ensures ("-" + t)[0] == '-' && ("-" + t)[1..] == t
  {
  }

  /** parseInt reads back the number at the start of a text, up to the first non-digit. */
  lemma ParseIntPrefix(n: int, rest: string)
    requires |rest| == 0 || !IsDigit(rest[0])
    ensures ParseInt(IntToString(n) + rest) == Some(n)
  {
    var m: nat := if n < 0 then -n else n;
    NatToDecimalValue(m);
    if n < 0 {
      ParseIntNegative(NatToDecimal(m), rest);
    } else {
      ParseIntUnsigned(NatToDecimal(m), rest);
    }
  }

  /** parseInt reads back what toString writes. */
  lemma IntToStringRoundTrip(n: int)
    ensures ParseInt(IntToString(n)) == Some(n)
  {
    ParseIntPrefix(n, "");
    assert IntToString(n) + "" == IntToString(n);
  }

  /** Distinct integers have distinct decimal notations. */
  lemma IntToStringInjective(a: int, b: int)
    requires IntToString(a) == IntToString(b)
    ensures a == b
  {
    IntToStringRoundTrip(a);
    IntToStringRoundTrip(b);
  }
}
