/**
 * Generic sequence helpers shared by the model: the JavaScript array and string
 * operations the application relies on (`filter`, `find`/`findIndex`, `includes`,
 * `toLowerCase`, `Math.max(0, …)`), each with the contract that says what it means.
 */
module Common {

  datatype Option<T> = None | Some(value: T)

  /** How an async thunk settles: its fulfilled payload or its `rejectWithValue` reason. */
  datatype Settled<T> = Fulfilled(value: T) | Rejected(reason: string)

  /** `action.payload as string || 'Error desconocido'` in every rejected case. */
  function RejectedError(reason: string): (e: string)
    ensures e != ""
    ensures reason != "" ==> e == reason
    ensures reason == "" ==> e == "Error desconocido"
  {
    if reason == "" then "Error desconocido" else reason
  }

  /** `Math.max(0, x)`: the least non-negative number that is at least x. */
  function Max0(x: int): (r: int)
    ensures r >= 0 && r >= x
    ensures r == 0 || r == x
  {
    if x < 0 then 0 else x
  }

  /** r can be obtained from s by deleting elements, keeping the order of the rest. */
  predicate IsSubsequence<T(==)>(r: seq<T>, s: seq<T>)
    decreases |s|
  {
    if |r| == 0 then true
    else if |s| == 0 then false
    else (r[0] == s[0] && IsSubsequence(r[1..], s[1..])) || IsSubsequence(r, s[1..])
  }

  lemma {:induction false} SubsequenceRefl<T>(s: seq<T>)
    ensures IsSubsequence(s, s)
    decreases |s|
  {
    if |s| > 0 {
      SubsequenceRefl(s[1..]);
    }
  }

  /** `Array.prototype.filter`: the elements satisfying p, in their original order. */
  function Filter<T>(s: seq<T>, p: T -> bool): (r: seq<T>)
    ensures |r| <= |s|
    ensures forall x :: x in r ==> x in s && p(x)
    ensures forall x :: x in s && p(x) ==> x in r
    ensures IsSubsequence(r, s)
    decreases |s|
  {
    if |s| == 0 then []
    else if p(s[0]) then [s[0]] + Filter(s[1..], p)
    else Filter(s[1..], p)
  }

  /** Filtering distributes over concatenation, so it never reorders what it keeps. */
  lemma {:induction false} FilterAppend<T>(a: seq<T>, b: seq<T>, p: T -> bool)
    ensures Filter(a + b, p) == Filter(a, p) + Filter(b, p)
    decreases |a|
  {
    if |a| == 0 {
      assert a + b == b;
    } else {
      assert (a + b)[0] == a[0];
      assert (a + b)[1..] == a[1..] + b;
      FilterAppend(a[1..], b, p);
      if p(a[0]) {
        calc {
          Filter(a + b, p);
          [a[0]] + Filter(a[1..] + b, p);
          [a[0]] + (Filter(a[1..], p) + Filter(b, p));
          ([a[0]] + Filter(a[1..], p)) + Filter(b, p);
        }
      }
    }
  }

  /** One more element of the input adds it to the filtered prefix exactly when it passes. */
  lemma FilterPrefixStep<T>(s: seq<T>, i: int, p: T -> bool)
    requires 0 <= i < |s|
    ensures Filter(s[..i + 1], p) == Filter(s[..i], p) + (if p(s[i]) then [s[i]] else [])
  {
    assert s[..i + 1] == s[..i] + [s[i]];
    FilterAppend(s[..i], [s[i]], p);
    assert Filter([s[i]], p) == if p(s[i]) then [s[i]] else [];
  }

  /** A filter that every element passes returns the whole sequence, in order. */
  lemma {:induction false} FilterAll<T>(s: seq<T>, p: T -> bool)
    requires forall k :: 0 <= k < |s| ==> p(s[k])
    ensures Filter(s, p) == s
    decreases |s|
  {
    if |s| > 0 {
      FilterAll(s[1..], p);
    }
  }

  /** A filter that no element passes returns nothing. */
  lemma {:induction false} FilterNone<T>(s: seq<T>, p: T -> bool)
    requires forall k :: 0 <= k < |s| ==> !p(s[k])
    ensures Filter(s, p) == []
    decreases |s|
  {
    if |s| > 0 {
      FilterNone(s[1..], p);
    }
  }

  /** Filtering by p and then by q is filtering by their conjunction. */
  lemma {:induction false} FilterFilter<T>(s: seq<T>, p: T -> bool, q: T -> bool)
    ensures Filter(Filter(s, p), q) == Filter(s, x => p(x) && q(x))
    decreases |s|
  {
    if |s| > 0 {
      FilterFilter(s[1..], p, q);
    }
  }

  /**
   * `s.filter(y => y !== x)`: every occurrence of x removed, every other element kept
   * as often as it occurred and in its original order.
   */
  function Without<T(==,!new)>(s: seq<T>, x: T): (r: seq<T>)
    ensures x !in r
    ensures |r| <= |s|
    ensures forall y :: y in r <==> y in s && y != x
    ensures multiset(r) == multiset(s)[x := 0]
    ensures IsSubsequence(r, s)
    ensures x !in s ==> r == s
    decreases |s|
  {
    if |s| == 0 then []
    else if s[0] == x then
      var rest := Without(s[1..], x);
      assert s == [s[0]] + s[1..];
      rest
    else
      var rest := Without(s[1..], x);
      assert s == [s[0]] + s[1..];
      assert ([s[0]] + rest)[1..] == rest;
      [s[0]] + rest
  }

  /** Removing x shortens s by the number of times x occurs in it. */
  lemma {:induction false} WithoutLength<T(!new)>(s: seq<T>, x: T)
    ensures |Without(s, x)| + multiset(s)[x] == |s|
    decreases |s|
  {
    if |s| > 0 {
      WithoutLength(s[1..], x);
      assert s == [s[0]] + s[1..];
      assert multiset(s) == multiset{s[0]} + multiset(s[1..]);
    }
  }

  /** Removing x distributes over concatenation. */
  lemma {:induction false} WithoutAppend<T(!new)>(a: seq<T>, b: seq<T>, x: T)
    ensures Without(a + b, x) == Without(a, x) + Without(b, x)
    decreases |a|
  {
    if |a| == 0 {
      assert a + b == b;
    } else {
      assert (a + b)[0] == a[0];
      assert (a + b)[1..] == a[1..] + b;
      WithoutAppend(a[1..], b, x);
    }
  }

  /** `findIndex`: the first position whose element satisfies p, or -1. */
  function FirstIndex<T>(s: seq<T>, p: T -> bool): (i: int)
    ensures -1 <= i < |s|
    ensures i == -1 <==> forall k :: 0 <= k < |s| ==> !p(s[k])
    ensures i >= 0 ==> p(s[i]) && forall k :: 0 <= k < i ==> !p(s[k])
    decreases |s|
  {
    if |s| == 0 then -1
    else if p(s[0]) then 0
    else
      var j := FirstIndex(s[1..], p);
      if j == -1 then -1 else j + 1
  }

  /** `find`: the first element satisfying p, if any. */
  function Find<T>(s: seq<T>, p: T -> bool): (r: Option<T>)
    ensures r.None? <==> forall k :: 0 <= k < |s| ==> !p(s[k])
    ensures r.Some? ==> r.value in s && p(r.value)
  {
    var i := FirstIndex(s, p);
    if i == -1 then None else Some(s[i])
  }

  /**
   * `const x = s.find(p); if (x) { …mutate x… }` on an immer draft: f applied to the
   * first element satisfying p, every other element untouched.
   */
  function UpdateFirst<T>(s: seq<T>, p: T -> bool, f: T -> T): (r: seq<T>)
    ensures |r| == |s|
    ensures FirstIndex(s, p) == -1 ==> r == s
    ensures FirstIndex(s, p) >= 0 ==> r == s[FirstIndex(s, p) := f(s[FirstIndex(s, p)])]
  {
    var i := FirstIndex(s, p);
    if i == -1 then s else s[i := f(s[i])]
  }

  /** Two tests that agree on every element select the same positions. */
  lemma FirstIndexAgree<T>(s: seq<T>, t: seq<T>, p: T -> bool, q: T -> bool)
    requires |s| == |t|
    requires forall k :: 0 <= k < |s| ==> p(s[k]) == q(t[k])
    ensures FirstIndex(s, p) == FirstIndex(t, q)
  {
  }

  /**
   * Updating the first match twice with functions that keep the test's answer is
   * updating it once with their composition.
   */
  lemma UpdateFirstTwice<T>(s: seq<T>, p: T -> bool, f: T -> T, g: T -> T)
    requires forall x :: p(f(x)) == p(x)
    ensures UpdateFirst(UpdateFirst(s, p, f), p, g) == UpdateFirst(s, p, x => g(f(x)))
  {
    var t := UpdateFirst(s, p, f);
    FirstIndexAgree(t, s, p, p);
  }

  /** Filters with tests that agree everywhere are equal. */
  lemma {:induction false} FilterAgree<T>(s: seq<T>, p: T -> bool, q: T -> bool)
    requires forall x :: p(x) == q(x)
    ensures Filter(s, p) == Filter(s, q)
    decreases |s|
  {
    if |s| > 0 {
      FilterAgree(s[1..], p, q);
    }
  }

  /** Two tests that split p's elements between them split what filtering by p keeps. */
  lemma {:induction false} FilterPartition<T>(s: seq<T>, p: T -> bool, a: T -> bool, b: T -> bool)
    requires forall x :: (a(x) || b(x)) == p(x)
    requires forall x :: !(a(x) && b(x))
    ensures multiset(Filter(s, a)) + multiset(Filter(s, b)) == multiset(Filter(s, p))
    decreases |s|
  {
    if |s| > 0 {
      FilterPartition(s[1..], p, a, b);
    }
  }

  /** `some`: an element satisfies p. */
  predicate Any<T>(s: seq<T>, p: T -> bool)
  {
    exists k :: 0 <= k < |s| && p(s[k])
  }

  /** `String.prototype.includes`: needle occurs in hay as a contiguous run. */
  predicate Includes(hay: string, needle: string)
    decreases |hay|
  {
    needle <= hay || (|hay| > 0 && Includes(hay[1..], needle))
  }

  /** needle occurs in hay starting at position i. */
  predicate OccursAt(hay: string, needle: string, i: int)
  {
    0 <= i && i + |needle| <= |hay| && hay[i..i + |needle|] == needle
  }

  /** A position where the needle of a successful Includes occurs. */
  lemma {:induction false} IncludesWitness(hay: string, needle: string) returns (i: int)
    requires Includes(hay, needle)
    ensures OccursAt(hay, needle, i)
    decreases |hay|
  {
    if needle <= hay {
      i := 0;
    } else {
      var j := IncludesWitness(hay[1..], needle);
      assert hay[1..][j..j + |needle|] == hay[j + 1..j + 1 + |needle|];
      i := j + 1;
    }
  }

  /** An occurrence at any position makes Includes hold. */
  lemma {:induction false} OccursIncludes(hay: string, needle: string, i: int)
    requires OccursAt(hay, needle, i)
    ensures Includes(hay, needle)
    decreases i
  {
    if i > 0 {
      assert hay[1..][i - 1..i - 1 + |needle|] == hay[i..i + |needle|];
      OccursIncludes(hay[1..], needle, i - 1);
    }
  }

  /** Includes agrees with the positional definition of a substring. */
  lemma IncludesAt(hay: string, needle: string)
    ensures Includes(hay, needle) <==> exists i :: OccursAt(hay, needle, i)
  {
    if Includes(hay, needle) {
      var i := IncludesWitness(hay, needle);
    }
    if exists i :: OccursAt(hay, needle, i) {
      var i :| OccursAt(hay, needle, i);
      OccursIncludes(hay, needle, i);
    }
  }

  /** Every string includes the empty string. */
  lemma IncludesEmpty(hay: string)
    ensures Includes(hay, "")
  {
  }

  /** The ASCII part of `toLowerCase` on one character. */
  function LowerChar(c: char): (d: char)
    ensures 'A' <= c <= 'Z' ==> 'a' <= d <= 'z' && d as int == c as int + 32
    ensures !('A' <= c <= 'Z') ==> d == c
  {
    if 'A' <= c <= 'Z' then (c as int + 32) as char else c
  }

  /** `toLowerCase` with ASCII case mapping, character by character. */
  function Lower(s: string): (r: string)
    ensures |r| == |s|
    ensures forall i :: 0 <= i < |s| ==> r[i] == LowerChar(s[i])
    ensures forall i :: 0 <= i < |r| ==> !('A' <= r[i] <= 'Z')
  {
    seq(|s|, i requires 0 <= i < |s| => LowerChar(s[i]))
  }
}
