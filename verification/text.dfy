/**
  The string primitives the catalogue text is built from: `sep.join`,
  `str(n)` for a count, Python's ordering of strings (code point by code
  point), `sorted` over distinct strings, and de-duplication.
 */
module Text {
  import opened Wrappers

  // ---------------------------------------------------------------------------
  // Joining
  // ---------------------------------------------------------------------------

  /** `sep.join(parts)` */
  function Join(sep: string, parts: seq<string>): string {
    if |parts| == 0 then ""
    else if |parts| == 1 then parts[0]
    else Join(sep, parts[..|parts| - 1]) + sep + Last(parts)
  }

  /** `t` appears in `s` at some position (`t in s` for Python strings). */
  predicate Occurs(t: string, s: string) {
    exists k :: 0 <= k <= |s| && OccursAt(t, s, k)
  }

  predicate OccursAt(t: string, s: string, k: int) {
    0 <= k <= |s| - |t| && s[k..k + |t|] == t
  }

  lemma {:induction false} OccursMiddle(a: string, t: string, b: string)
    ensures Occurs(t, a + t + b)
  {
    assert (a + t + b)[|a|..|a| + |t|] == t;
    assert OccursAt(t, a + t + b, |a|);
  }

  lemma {:induction false} OccursWithin(t: string, s: string, a: string, b: string)
    requires Occurs(t, s)
    ensures Occurs(t, a + s + b)
  {
    var k :| 0 <= k <= |s| && OccursAt(t, s, k);
    assert (a + s + b)[|a| + k..|a| + k + |t|] == s[k..k + |t|];
    assert OccursAt(t, a + s + b, |a| + k);
  }

  /** Occurrence is transitive: a piece of a piece of `s` is a piece of `s`. */
  lemma {:induction false} OccursTrans(t: string, u: string, s: string)
    requires Occurs(t, u) && Occurs(u, s)
    ensures Occurs(t, s)
  {
    var k :| 0 <= k <= |u| && OccursAt(t, u, k);
    var k' :| 0 <= k' <= |s| && OccursAt(u, s, k');
    forall d | 0 <= d < |t|
      ensures s[k' + k + d] == t[d]
    {
      assert s[k'..k' + |u|][k + d] == u[k + d];
      assert u[k..k + |t|][d] == t[d];
    }
    assert s[k' + k..k' + k + |t|] == t;
    assert OccursAt(t, s, k' + k);
  }

  lemma {:induction false} OccursStart(t: string, s: string, b: string)
    requires Occurs(t, s)
    ensures Occurs(t, s + b)
  {
    var k :| 0 <= k <= |s| && OccursAt(t, s, k);
    assert (s + b)[k..k + |t|] == s[k..k + |t|];
    assert OccursAt(t, s + b, k);
  }

  lemma {:induction false} OccursEnd(t: string, a: string)
    ensures Occurs(t, a + t)
  {
    assert (a + t)[|a|..|a| + |t|] == t;
    assert OccursAt(t, a + t, |a|);
  }

  /** Each part is spelled out in the join. */
  lemma {:induction false} JoinContains(sep: string, parts: seq<string>, i: nat)
    requires i < |parts|
    ensures Occurs(parts[i], Join(sep, parts))
  {
    if |parts| == 1 {
      OccursEnd(parts[0], "");
      assert "" + parts[0] == parts[0];
    } else {
      var front := parts[..|parts| - 1];
      assert Join(sep, parts) == Join(sep, front) + sep + Last(parts);
      if i == |parts| - 1 {
        OccursEnd(parts[i], Join(sep, front) + sep);
      } else {
        assert front[i] == parts[i];
        JoinContains(sep, front, i);
        OccursStart(parts[i], Join(sep, front), sep + Last(parts));
        assert Join(sep, front) + sep + Last(parts) == Join(sep, front) + (sep + Last(parts));
      }
    }
  }

  // ---------------------------------------------------------------------------
  // Decimal numerals
  // ---------------------------------------------------------------------------

  predicate IsDigit(c: char) {
    '0' <= c <= '9'
  }

  predicate AllDigits(s: string) {
    forall i :: 0 <= i < |s| ==> IsDigit(s[i])
  }

  function DigitChar(d: nat): (c: char)
    requires d < 10
    ensures IsDigit(c) && (c as int) - ('0' as int) == d
  {
    ((('0' as int) + d) as char)
  }

  /** `str(n)` for a non-negative integer: its decimal numeral. */
  function NatToString(n: nat): (s: string)
    ensures |s| > 0 && AllDigits(s)
    ensures n > 0 ==> s[0] != '0'
    ensures n == 0 ==> s == "0"
  {
    if n < 10 then [DigitChar(n)] else NatToString(n / 10) + [DigitChar(n % 10)]
  }

  /** The value of a decimal numeral. */
  function DecimalValue(s: string): nat
    requires AllDigits(s)
  {
    if |s| == 0 then 0
    else DecimalValue(s[..|s| - 1]) * 10 + ((Last(s) as int) - ('0' as int))
  }

  /** Reading a numeral back gives the number it was written from. */
  lemma {:induction false} NatToStringRoundTrip(n: nat)
    ensures DecimalValue(NatToString(n)) == n
  {
    var s := NatToString(n);
    if n < 10 {
      assert s[..0] == [];
    } else {
      NatToStringRoundTrip(n / 10);
      assert s[..|s| - 1] == NatToString(n / 10);
    }
  }

  // ---------------------------------------------------------------------------
  // Ordering
  // ---------------------------------------------------------------------------

  /** Python's `a < b` on strings: the first differing code point decides, a proper prefix comes first. */
  predicate Less(a: string, b: string) {
    if |a| == 0 then |b| > 0
    else if |b| == 0 then false
    else if a[0] != b[0] then a[0] < b[0]
    else Less(a[1..], b[1..])
  }

  lemma {:induction false} LessIrreflexive(a: string)
    ensures !Less(a, a)
  {
    if |a| > 0 {
      LessIrreflexive(a[1..]);
    }
  }

  /** Two different strings are ordered one way. */
  lemma {:induction false} LessTotal(a: string, b: string)
    ensures a == b || Less(a, b) || Less(b, a)
  {
    if |a| > 0 && |b| > 0 && a[0] == b[0] {
      LessTotal(a[1..], b[1..]);
      if a[1..] == b[1..] {
        assert a == [a[0]] + a[1..] && b == [b[0]] + b[1..];
      }
    }
  }

  /** They are ordered one way only. */
  lemma {:induction false} LessAsymmetric(a: string, b: string)
    ensures !(Less(a, b) && Less(b, a))
  {
    if |a| > 0 && |b| > 0 && a[0] == b[0] {
      LessAsymmetric(a[1..], b[1..]);
    }
  }

  lemma {:induction false} LessTransitive(a: string, b: string, c: string)
    requires Less(a, b) && Less(b, c)
    ensures Less(a, c)
  {
    if |a| > 0 && a[0] == b[0] && b[0] == c[0] {
      LessTransitive(a[1..], b[1..], c[1..]);
    }
  }

  /**
    On numerals of one length the string order is the numeric order, so
    sorting year or month names sorts the years or months.
   */
  lemma {:induction false} LessOnNumerals(a: string, b: string)
    requires AllDigits(a) && AllDigits(b) && |a| == |b|
    ensures Less(a, b) <==> DecimalValue(a) < DecimalValue(b)
    decreases |a|
  {
    if |a| > 0 {
      var n := |a| - 1;
      var a', b' := a[..n], b[..n];
      LessOnNumerals(a', b');
      LessSplit(a, b);
      var da := (a[n] as int) - ('0' as int);
      var db := (b[n] as int) - ('0' as int);
      assert DecimalValue(a) == DecimalValue(a') * 10 + da;
      assert DecimalValue(b) == DecimalValue(b') * 10 + db;
      if a' == b' {
        assert Less(a, b) <==> a[n] < b[n];
      } else if Less(a', b') {
        assert DecimalValue(a') + 1 <= DecimalValue(b');
      } else {
        LessTotal(a', b');
        LessOnNumerals(b', a');
        assert DecimalValue(b') + 1 <= DecimalValue(a');
        LessAsymmetric(a, b);
      }
    }
  }

  /** Comparing equal-length strings: the fronts decide unless they are equal, then the last characters. */
  lemma {:induction false} LessSplit(a: string, b: string)
    requires |a| == |b| > 0
    ensures var n := |a| - 1;
            Less(a, b) <==> Less(a[..n], b[..n]) || (a[..n] == b[..n] && a[n] < b[n])
    decreases |a|
  {
    var n := |a| - 1;
    if n == 0 {
      assert a[..n] == [] && b[..n] == [];
    } else if a[0] == b[0] {
      LessSplit(a[1..], b[1..]);
      assert a[1..][..n - 1] == a[..n][1..];
      assert b[1..][..n - 1] == b[..n][1..];
      assert a[..n] == b[..n] <==> a[1..][..n - 1] == b[1..][..n - 1];
    } else {
      assert a[..n][0] == a[0] && b[..n][0] == b[0];
    }
  }

  // ---------------------------------------------------------------------------
  // Sorting and de-duplication
  // ---------------------------------------------------------------------------

  /** Strictly ascending, hence without repeats. */
  predicate StrictlySorted(s: seq<string>) {
    forall i, j :: 0 <= i < j < |s| ==> Less(s[i], s[j])
  }

  predicate Distinct<T(==)>(s: seq<T>) {
    forall i, j :: 0 <= i < j < |s| ==> s[i] != s[j]
  }

  /** Puts `x` into a strictly ascending list, unless it is there already. */
  function InsertSorted(x: string, s: seq<string>): (r: seq<string>)
    requires StrictlySorted(s)
    ensures StrictlySorted(r)
    ensures forall y :: y in r <==> y == x || y in s
    ensures x in s ==> |r| == |s|
    ensures x !in s ==> |r| == |s| + 1
  {
    if |s| == 0 then [x]
    else if x == s[0] then s
    else if Less(x, s[0]) then
      LessChain(x, s);
      SortedHeadLeast(s, x);
      LessAsymmetric(x, s[0]);
      [x] + s
    else
      LessTotal(x, s[0]);
      var r' := InsertSorted(x, s[1..]);
      assert forall i :: 0 <= i < |r'| ==> Less(s[0], r'[i]) by {
        forall i | 0 <= i < |r'|
          ensures Less(s[0], r'[i])
        {
          assert r'[i] in r';
          if r'[i] != x {
            var j :| 0 <= j < |s[1..]| && s[1..][j] == r'[i];
            assert s[1..][j] == s[j + 1];
          }
        }
      }
      [s[0]] + r'
  }

  /** Below the head of an ascending list is below all of it. */
  lemma {:induction false} LessChain(x: string, s: seq<string>)
    requires StrictlySorted(s) && |s| > 0 && Less(x, s[0])
    ensures StrictlySorted([x] + s)
  {
    forall i | 0 < i < |s|
      ensures Less(x, s[i])
    {
      LessTransitive(x, s[0], s[i]);
    }
  }

  /** `sorted(set(s))`: the distinct elements of `s`, ascending. */
  function SortDistinct(s: seq<string>): (r: seq<string>)
    ensures StrictlySorted(r)
    ensures forall y :: y in r <==> y in s
  {
    if |s| == 0 then []
    else
      var r' := SortDistinct(s[..|s| - 1]);
      assert forall y :: y in s <==> y in s[..|s| - 1] || y == Last(s) by {
        assert s == s[..|s| - 1] + [Last(s)];
      }
      InsertSorted(Last(s), r')
  }

  /** A strictly ascending list is fixed by its elements: `sorted` has one answer. */
  lemma {:induction false} SortedUnique(a: seq<string>, b: seq<string>)
    requires StrictlySorted(a) && StrictlySorted(b)
    requires forall y :: y in a <==> y in b
    ensures a == b
    decreases |a|
  {
    assert |a| > 0 ==> a[0] in b;
    assert |b| > 0 ==> b[0] in a;
    if |a| > 0 {
      SortedHeadLeast(a, b[0]);
      SortedHeadLeast(b, a[0]);
      LessAsymmetric(a[0], b[0]);
      forall y
        ensures y in a[1..] <==> y in b[1..]
      {
        SortedMember(a, y);
        SortedMember(b, y);
      }
      SortedUnique(a[1..], b[1..]);
      assert a == [a[0]] + a[1..] && b == [b[0]] + b[1..];
    }
  }

  /** The head of an ascending list is its least element. */
  lemma {:induction false} SortedHeadLeast(s: seq<string>, y: string)
    requires StrictlySorted(s) && |s| > 0
    ensures y in s ==> y == s[0] || Less(s[0], y)
  {
  }

  /** In an ascending list, the elements after the head are the ones other than the head. */
  lemma {:induction false} SortedMember(a: seq<string>, y: string)
    requires StrictlySorted(a) && |a| > 0
    ensures y in a[1..] <==> y in a && y != a[0]
  {
    if y in a[1..] {
      var i :| 0 <= i < |a[1..]| && a[1..][i] == y;
      assert a[i + 1] == y;
      LessIrreflexive(a[0]);
    }
    if y in a && y != a[0] {
      var i :| 0 <= i < |a| && a[i] == y;
      assert a[1..][i - 1] == y;
    }
  }

  /** The first occurrence of each element, in order: one fixed order for `list(set(s))`. */
  function Dedupe(s: seq<string>): (r: seq<string>)
    ensures Distinct(r)
    ensures forall y :: y in r <==> y in s
  {
    if |s| == 0 then []
    else
      var r' := Dedupe(s[..|s| - 1]);
      assert forall y :: y in s <==> y in s[..|s| - 1] || y == Last(s) by {
        assert s == s[..|s| - 1] + [Last(s)];
      }
      if Last(s) in r' then r' else r' + [Last(s)]
  }
}
