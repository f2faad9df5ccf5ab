/** The pieces of JavaScript's string and regular-expression behaviour the
    application relies on: character classes, greedy runs, the leftmost match,
    `includes`, `split`, `join`, `trim`, `filter` and the decimal rendering of
    a number inside a template string. */
module Text {
  import opened Wrappers

  // ---------------------------------------------------------------------
  // Character classes

  predicate IsDigit(c: char) { '0' <= c <= '9' }

  predicate IsAsciiLetter(c: char) { 'A' <= c <= 'Z' || 'a' <= c <= 'z' }

  /** `\w` in a regular expression without the `u` flag. */
  predicate IsWordChar(c: char) { IsAsciiLetter(c) || IsDigit(c) || c == '_' }

  /** White space and line terminators: what `String.prototype.trim` removes. */
  predicate IsJsWhitespace(c: char) {
    || c in {'\t', '\n', '\U{B}', '\U{C}', '\r', ' ', '\U{A0}', '\U{1680}',
             '\U{2028}', '\U{2029}', '\U{202F}', '\U{205F}', '\U{3000}', '\U{FEFF}'}
    || '\U{2000}' <= c <= '\U{200A}'
  }

  /** ASCII case folding. A case-insensitive regular expression without the
      `u` flag never folds a non-ASCII character onto an ASCII one, so against
      an ASCII pattern this is exactly the comparison it makes. */
  function FoldCase(c: char): char {
    if 'A' <= c <= 'Z' then (c as int + 32) as char else c
  }

  /** `toLowerCase` restricted to ASCII letters. */
  function ToLower(s: string): (r: string)
    ensures |r| == |s|
    ensures forall k :: 0 <= k < |s| ==> r[k] == FoldCase(s[k])
  {
    seq(|s|, k requires 0 <= k < |s| => FoldCase(s[k]))
  }

  predicate AllDigits(s: string) { forall k :: 0 <= k < |s| ==> IsDigit(s[k]) }

  predicate AllWordChars(s: string) { forall k :: 0 <= k < |s| ==> IsWordChar(s[k]) }

  // ---------------------------------------------------------------------
  // Literal occurrences, greedy runs and the leftmost match

  /** `lit` occurs in `s` at position `i`. */
  predicate OccursAt(s: string, i: nat, lit: string) {
    i + |lit| <= |s| && s[i..i + |lit|] == lit
  }

  /** `lit` occurs in `s` at position `i`, ignoring ASCII case. */
  predicate OccursAtIgnoringCase(s: string, i: nat, lit: string) {
    i + |lit| <= |s| && forall k {:trigger lit[k]} :: 0 <= k < |lit| ==> FoldCase(s[i + k]) == FoldCase(lit[k])
  }

  /** Length of the longest run of characters of a class starting at `i`:
      what a greedy `\d+`, `\d*` or `\w+` consumes there. */
  function Span(s: string, i: nat, inClass: char -> bool): (n: nat)
    requires i <= |s|
    ensures i + n <= |s|
    ensures forall k :: i <= k < i + n ==> inClass(s[k])
    ensures i + n == |s| || !inClass(s[i + n])
    decreases |s| - i
  {
    if i < |s| && inClass(s[i]) then 1 + Span(s, i + 1, inClass) else 0
  }

  /** A run that is followed by the end or by a character outside the class
      is the one a greedy quantifier takes. */
  lemma SpanOfBoundedRun(s: string, i: nat, inClass: char -> bool, n: nat)
    requires i + n <= |s|
    requires forall k :: i <= k < i + n ==> inClass(s[k])
    requires i + n == |s| || !inClass(s[i + n])
    ensures Span(s, i, inClass) == n
  {
  }

  /** The least position in `lo..hi` where `hit` holds: where a regular
      expression without the `g` flag reports its match. */
  function Leftmost(lo: nat, hi: nat, hit: nat -> bool): (r: Option<nat>)
    ensures r.Some? ==> lo <= r.value <= hi && hit(r.value)
    ensures r.Some? ==> forall j :: lo <= j < r.value ==> !hit(j)
    ensures r.None? ==> forall j :: lo <= j <= hi ==> !hit(j)
    decreases hi + 1 - lo
  {
    if lo > hi then None
    else if hit(lo) then Some(lo)
    else Leftmost(lo + 1, hi, hit)
  }

  /** `s.includes(t)`. */
  function Contains(s: string, t: string): (r: bool)
    ensures r <==> exists i: nat :: OccursAt(s, i, t)
  {
    var hit := (j: nat) => OccursAt(s, j, t);
    var found := Leftmost(0, |s|, hit);
    if found.Some? then
      assert hit(found.value);
      true
    else
      assert forall i: nat :: i <= |s| ==> !hit(i);
      assert forall i: nat :: OccursAt(s, i, t) ==> i <= |s| && hit(i);
      false
  }

  // ---------------------------------------------------------------------
  // split, join, trim

  /** `parts.join(d)` for a non-empty array. */
  function Join(parts: seq<string>, d: char): string
    requires |parts| >= 1
    decreases |parts|
  {
    if |parts| == 1 then parts[0] else parts[0] + [d] + Join(parts[1..], d)
  }

  /** `s.split(d)` for a one-character separator: the fields between the
      separators, an empty string included; joining them back gives `s`. */
  function Split(s: string, d: char): (fields: seq<string>)
    ensures |fields| >= 1
    ensures forall k :: 0 <= k < |fields| ==> d !in fields[k]
    ensures Join(fields, d) == s
    decreases |s|
  {
    if s == [] then [""]
    else
      var rest := Split(s[1..], d);
      if s[0] == d then
        assert ([""] + rest)[1..] == rest;
        [""] + rest
      else
        var fields := [[s[0]] + rest[0]] + rest[1..];
        assert |rest| > 1 ==> Join(rest, d) == rest[0] + [d] + Join(rest[1..], d);
        assert fields[1..] == rest[1..];
        fields
  }

  lemma {:induction false} SplitOfField(p: string, d: char)
    requires d !in p
    ensures Split(p, d) == [p]
    decreases |p|
  {
    if p != [] {
      SplitOfField(p[1..], d);
    }
  }

  lemma {:induction false} SplitOfFieldThen(p: string, t: string, d: char)
    requires d !in p
    ensures Split(p + [d] + t, d) == [p] + Split(t, d)
    decreases |p|
  {
    var s := p + [d] + t;
    if p == [] {
      assert s[1..] == t;
    } else {
      assert s[1..] == p[1..] + [d] + t;
      SplitOfFieldThen(p[1..], t, d);
      assert [p[0]] + p[1..] == p;
    }
  }

  /** Splitting undoes joining when no field holds the separator. */
  lemma {:induction false} SplitOfJoin(parts: seq<string>, d: char)
    requires |parts| >= 1
    requires forall k :: 0 <= k < |parts| ==> d !in parts[k]
    ensures Split(Join(parts, d), d) == parts
    decreases |parts|
  {
    if |parts| == 1 {
      SplitOfField(parts[0], d);
    } else {
      SplitOfFieldThen(parts[0], Join(parts[1..], d), d);
      SplitOfJoin(parts[1..], d);
    }
  }

  function TrimStart(s: string): (r: string)
    ensures |r| <= |s| && r == s[|s| - |r|..]
    ensures forall k :: 0 <= k < |s| - |r| ==> IsJsWhitespace(s[k])
    ensures r == [] || !IsJsWhitespace(r[0])
    decreases |s|
  {
    if s != [] && IsJsWhitespace(s[0]) then TrimStart(s[1..]) else s
  }

  function TrimEnd(s: string): (r: string)
    ensures |r| <= |s| && r == s[..|r|]
    ensures forall k :: |r| <= k < |s| ==> IsJsWhitespace(s[k])
    ensures r == [] || !IsJsWhitespace(r[|r| - 1])
    decreases |s|
  {
    if s != [] && IsJsWhitespace(s[|s| - 1]) then TrimEnd(s[..|s| - 1]) else s
  }

  /** `s.trim()`: the slice of `s` left after removing white space from both
      ends; it neither starts nor ends with white space. */
  function Trim(s: string): (r: string)
    ensures r == [] || (!IsJsWhitespace(r[0]) && !IsJsWhitespace(r[|r| - 1]))
  {
    TrimEnd(TrimStart(s))
  }

  /** What `trim` leaves is a slice of the text with only white space
      around it. */
  lemma TrimIsPaddedSlice(s: string)
    ensures exists i: nat :: IsPaddedSlice(s, i, Trim(s))
  {
    var t := TrimStart(s);
    var r := TrimEnd(t);
    var i := |s| - |t|;
    assert r == t[..|r|] && t == s[i..];
    assert r == s[i..i + |r|];
    forall k | i + |r| <= k < |s| ensures IsJsWhitespace(s[k]) {
      assert s[k] == t[k - i];
    }
    assert IsPaddedSlice(s, i, Trim(s));
  }

  /** `r` is the slice of `s` at `i`, and only white space surrounds it. */
  predicate IsPaddedSlice(s: string, i: nat, r: string) {
    && i + |r| <= |s| && r == s[i..i + |r|]
    && (forall k :: 0 <= k < i ==> IsJsWhitespace(s[k]))
    && (forall k :: i + |r| <= k < |s| ==> IsJsWhitespace(s[k]))
  }

  lemma {:induction false} TrimStartOfPadded(w: string, t: string)
    requires forall k :: 0 <= k < |w| ==> IsJsWhitespace(w[k])
    requires t == [] || !IsJsWhitespace(t[0])
    ensures TrimStart(w + t) == t
    decreases |w|
  {
    if w != [] {
      assert (w + t)[1..] == w[1..] + t;
      TrimStartOfPadded(w[1..], t);
    } else {
      assert w + t == t;
    }
  }

  lemma {:induction false} TrimEndOfPadded(t: string, w: string)
    requires forall k :: 0 <= k < |w| ==> IsJsWhitespace(w[k])
    requires t == [] || !IsJsWhitespace(t[|t| - 1])
    ensures TrimEnd(t + w) == t
    decreases |w|
  {
    if w != [] {
      assert (t + w)[..|t + w| - 1] == t + w[..|w| - 1];
      TrimEndOfPadded(t, w[..|w| - 1]);
    } else {
      assert t + w == t;
    }
  }

  /** Trimming removes exactly the white space around a text that does not
      itself start or end with white space. */
  lemma TrimOfPadded(w1: string, t: string, w2: string)
    requires forall k :: 0 <= k < |w1| ==> IsJsWhitespace(w1[k])
    requires forall k :: 0 <= k < |w2| ==> IsJsWhitespace(w2[k])
    requires t == [] || (!IsJsWhitespace(t[0]) && !IsJsWhitespace(t[|t| - 1]))
    ensures Trim(w1 + t + w2) == t
  {
    if t == [] {
      assert w1 + t + w2 == w1 + w2;
      forall k | 0 <= k < |w1 + w2| ensures IsJsWhitespace((w1 + w2)[k]) {
        if k >= |w1| { assert (w1 + w2)[k] == w2[k - |w1|]; }
      }
      TrimStartOfPadded(w1 + w2, []);
      assert w1 + w2 + [] == w1 + w2;
    } else {
      assert w1 + t + w2 == w1 + (t + w2);
      TrimStartOfPadded(w1, t + w2);
      TrimEndOfPadded(t, w2);
    }
  }

  // ---------------------------------------------------------------------
  // Subsequences and filter

  /** `a` is `b` with some elements left out and the order kept. */
  predicate IsSubsequence<T(==)>(a: seq<T>, b: seq<T>)
    decreases |b|
  {
    if a == [] then true
    else if b == [] then false
    else (a[0] == b[0] && IsSubsequence(a[1..], b[1..])) || IsSubsequence(a, b[1..])
  }

  lemma {:induction false} SubsequenceReflexive<T>(a: seq<T>)
    ensures IsSubsequence(a, a)
    decreases |a|
  {
    if a != [] {
      SubsequenceReflexive(a[1..]);
    }
  }

  lemma {:induction false} SubsequenceTransitive<T>(a: seq<T>, b: seq<T>, c: seq<T>)
    requires IsSubsequence(a, b) && IsSubsequence(b, c)
    ensures IsSubsequence(a, c)
    decreases |c|
  {
    if a != [] {
      if IsSubsequence(b, c[1..]) {
        SubsequenceTransitive(a, b, c[1..]);
      } else if a[0] == b[0] && IsSubsequence(a[1..], b[1..]) {
        SubsequenceTransitive(a[1..], b[1..], c[1..]);
      } else {
        SubsequenceTransitive(a, b[1..], c[1..]);
      }
    }
  }

  /** Every element of a subsequence is an element of the whole. */
  lemma {:induction false} SubsequenceMembers<T>(a: seq<T>, b: seq<T>)
    requires IsSubsequence(a, b)
    ensures forall x :: x in a ==> x in b
    decreases |b|
  {
    if a != [] {
      if a[0] == b[0] && IsSubsequence(a[1..], b[1..]) {
        SubsequenceMembers(a[1..], b[1..]);
        forall x | x in a ensures x in b {
          if x != a[0] {
            assert x in a[1..];
          }
        }
      } else {
        SubsequenceMembers(a, b[1..]);
      }
    }
  }

  /** `s.filter(keep)`: the elements that pass, in their order, each as often
      as in `s`. */
  function Filter<T>(s: seq<T>, keep: T -> bool): (r: seq<T>)
    ensures IsSubsequence(r, s)
    ensures forall k :: 0 <= k < |r| ==> keep(r[k])
    decreases |s|
  {
    if s == [] then []
    else if keep(s[0]) then [s[0]] + Filter(s[1..], keep)
    else Filter(s[1..], keep)
  }

  /** An element is kept exactly when it is in `s` and passes. */
  lemma {:induction false} FilterMembers<T>(s: seq<T>, keep: T -> bool)
    ensures forall x :: x in Filter(s, keep) <==> x in s && keep(x)
    decreases |s|
  {
    if s != [] {
      FilterMembers(s[1..], keep);
      assert s == [s[0]] + s[1..];
    }
  }

  /** Filtering keeps every copy of a kept element and none of the others. */
  lemma {:induction false} FilterCount<T>(s: seq<T>, keep: T -> bool, x: T)
    ensures multiset(Filter(s, keep))[x] == if keep(x) then multiset(s)[x] else 0
    decreases |s|
  {
    if s != [] {
      FilterCount(s[1..], keep, x);
      assert s == [s[0]] + s[1..];
      assert multiset(s) == multiset([s[0]]) + multiset(s[1..]);
      if keep(s[0]) {
        assert multiset(Filter(s, keep)) == multiset([s[0]]) + multiset(Filter(s[1..], keep));
      }
    }
  }

  /** Filtering a concatenation filters each part. */
  lemma {:induction false} FilterAppend<T>(a: seq<T>, b: seq<T>, keep: T -> bool)
    ensures Filter(a + b, keep) == Filter(a, keep) + Filter(b, keep)
    decreases |a|
  {
    if a != [] {
      assert (a + b)[1..] == a[1..] + b;
      FilterAppend(a[1..], b, keep);
    } else {
      assert a + b == b;
    }
  }

  /** Filtering with a test every element passes changes nothing. */
  lemma {:induction false} FilterKeepsAll<T>(s: seq<T>, keep: T -> bool)
    requires forall k :: 0 <= k < |s| ==> keep(s[k])
    ensures Filter(s, keep) == s
    decreases |s|
  {
    if s != [] {
      FilterKeepsAll(s[1..], keep);
    }
  }

  /** Filtering shortens a sequence unless it keeps every element. */
  lemma {:induction false} FilterLength<T>(s: seq<T>, keep: T -> bool)
    ensures |Filter(s, keep)| <= |s|
    ensures |Filter(s, keep)| == |s| <==> forall k :: 0 <= k < |s| ==> keep(s[k])
    decreases |s|
  {
    if s != [] {
      FilterLength(s[1..], keep);
      if keep(s[0]) {
        assert forall k :: 1 <= k < |s| ==> s[k] == s[1..][k - 1];
      }
    }
  }


  /** The values `f` yields over `s`, in order, skipping the elements it
      yields none for: a loop that appends to an array as it goes. */
  function FilterMap<A, B>(s: seq<A>, f: A -> Option<B>): (r: seq<B>)
    ensures |r| <= |s|
    decreases |s|
  {
    if s == [] then []
    else match f(s[|s| - 1])
      case Some(b) => FilterMap(s[..|s| - 1], f) + [b]
      case None => FilterMap(s[..|s| - 1], f)
  }

  /** A value is collected exactly when some element yields it. */
  lemma {:induction false} FilterMapIs<A, B>(s: seq<A>, f: A -> Option<B>)
    ensures forall b :: b in FilterMap(s, f) <==> exists k :: 0 <= k < |s| && f(s[k]) == Some(b)
    decreases |s|
  {
    if s != [] {
      var init := s[..|s| - 1];
      FilterMapIs(init, f);
      forall b ensures b in FilterMap(s, f) <==> exists k :: 0 <= k < |s| && f(s[k]) == Some(b) {
        if b in FilterMap(init, f) {
          var k :| 0 <= k < |init| && f(init[k]) == Some(b);
          assert s[k] == init[k];
        }
        if exists k :: 0 <= k < |s| && f(s[k]) == Some(b) {
          var k :| 0 <= k < |s| && f(s[k]) == Some(b);
          if k < |init| {
            assert s[k] == init[k];
          }
        }
      }
    }
  }


  // ---------------------------------------------------------------------
  // Numbers in template strings

  function DigitChar(d: nat): char
    requires d < 10
  {
    ('0' as int + d) as char
  }

  /** The number a string of decimal digits denotes. */
  function DecimalValue(s: string): nat
    requires AllDigits(s)
    decreases |s|
  {
    if s == [] then 0 else 10 * DecimalValue(s[..|s| - 1]) + (s[|s| - 1] as int - '0' as int)
  }

  /** `${n}` for a non-negative integer: its decimal digits, read back as
      `n`, with no leading zero. */
  function NatToDecimal(n: nat): (s: string)
    ensures |s| >= 1 && AllDigits(s)
    ensures DecimalValue(s) == n
    ensures s[0] == '0' ==> s == "0"
    decreases n
  {
    if n < 10 then [DigitChar(n)]
    else
      var s := NatToDecimal(n / 10) + [DigitChar(n % 10)];
      assert s[..|s| - 1] == NatToDecimal(n / 10);
      s
  }

  /** `${n}` for an integer. */
  function IntToDecimal(n: int): string {
    if n < 0 then "-" + NatToDecimal(-n) else NatToDecimal(n)
  }
}
