/** String helpers with Python's semantics: the `<` order on `str`, `sorted(set(xs))`,
    `str.replace(p, "")`, `str.endswith`, `sep.join(xs)` and `str.strip() == ""`. */
module Text {

  /** Python's `a < b` on strings: lexicographic by code point. */
  predicate Less(a: string, b: string)
  {
    if |a| == 0 then |b| > 0
    else if |b| == 0 then false
    else if a[0] == b[0] then Less(a[1..], b[1..])
    else a[0] < b[0]
  }

  lemma {:induction false} LessIrreflexive(a: string)
    ensures !Less(a, a)
  {
    if |a| > 0 {
      LessIrreflexive(a[1..]);
    }
  }

  lemma {:induction false} LessTransitive(a: string, b: string, c: string)
    requires Less(a, b) && Less(b, c)
    ensures Less(a, c)
  {
    if |a| > 0 && |b| > 0 && |c| > 0 && a[0] == b[0] && b[0] == c[0] {
      LessTransitive(a[1..], b[1..], c[1..]);
    }
  }

  lemma {:induction false} LessTotal(a: string, b: string)
    requires a != b
    ensures Less(a, b) || Less(b, a)
  {
    if |a| > 0 && |b| > 0 && a[0] == b[0] {
      assert a == [a[0]] + a[1..] && b == [b[0]] + b[1..];
      LessTotal(a[1..], b[1..]);
    }
  }

  lemma LessAsymmetric(a: string, b: string)
    requires Less(a, b)
    ensures !Less(b, a)
  {
    if Less(b, a) {
      LessTransitive(a, b, a);
      LessIrreflexive(a);
    }
  }

  /** Strictly increasing: sorted and free of duplicates. */
  predicate Sorted(s: seq<string>)
  {
    forall i, j :: 0 <= i < j < |s| ==> Less(s[i], s[j])
  }

  lemma SortedCons(x: string, s: seq<string>)
    requires Sorted(s)
    requires |s| > 0 ==> Less(x, s[0])
    ensures Sorted([x] + s)
  {
    var r := [x] + s;
    forall i, j | 0 <= i < j < |r| ensures Less(r[i], r[j]) {
      if i == 0 && j > 1 {
        LessTransitive(x, s[0], s[j - 1]);
      }
    }
  }

  /** Inserts `x` into a strictly increasing sequence, keeping it one. */
  function Insert(s: seq<string>, x: string): (r: seq<string>)
    requires Sorted(s)
    ensures Sorted(r)
    ensures forall y :: y in r <==> y in s || y == x
  {
    if |s| == 0 then [x]
    else if x == s[0] then s
    else if Less(x, s[0]) then
      SortedCons(x, s);
      [x] + s
    else
      LessTotal(x, s[0]);
      var t := Insert(s[1..], x);
      assert forall y :: y in t ==> Less(s[0], y);
      SortedCons(s[0], t);
      [s[0]] + t
  }

  /** `sorted(set(raw))`: the distinct strings of `raw` in increasing order. */
  function Canonical(raw: seq<string>): (r: seq<string>)
    ensures Sorted(r)
    ensures forall y :: y in r <==> y in raw
  {
    if |raw| == 0 then []
    else Insert(Canonical(raw[..|raw| - 1]), raw[|raw| - 1])
  }

  lemma SortedTail(s: seq<string>)
    requires Sorted(s) && |s| > 0
    ensures Sorted(s[1..])
    ensures forall y :: y in s[1..] <==> y in s && y != s[0]
  {
    forall y | y in s[1..] ensures y != s[0] {
      var j :| 1 <= j < |s| && s[j] == y;
      assert Less(s[0], s[j]);
      LessIrreflexive(s[0]);
    }
    assert s == [s[0]] + s[1..];
  }

  /** A strictly increasing sequence is determined by its elements. */
  lemma {:induction false} SortedUnique(a: seq<string>, b: seq<string>)
    requires Sorted(a) && Sorted(b)
    requires forall y :: y in a <==> y in b
    ensures a == b
  {
    assert |a| > 0 ==> a[0] in b;
    assert |b| > 0 ==> b[0] in a;
    if |a| > 0 && |b| > 0 {
      if a[0] != b[0] {
        assert a[0] in a && b[0] in b;
        var k :| 0 <= k < |b| && b[k] == a[0];
        var m :| 0 <= m < |a| && a[m] == b[0];
        assert Less(b[0], a[0]);
        assert Less(a[0], b[0]);
        LessAsymmetric(a[0], b[0]);
      }
      SortedTail(a);
      SortedTail(b);
      SortedUnique(a[1..], b[1..]);
      assert a == [a[0]] + a[1..] && b == [b[0]] + b[1..];
    }
  }

  /** `sorted(set(raw))` does not depend on the order or repetition of `raw`. */
  lemma CanonicalOrderFree(raw1: seq<string>, raw2: seq<string>)
    requires forall y :: y in raw1 <==> y in raw2
    ensures Canonical(raw1) == Canonical(raw2)
  {
    SortedUnique(Canonical(raw1), Canonical(raw2));
  }

  /** `xs.index(x)`: the first position of `x`. */
  function IndexOf(xs: seq<string>, x: string): (k: nat)
    requires x in xs
    ensures k < |xs| && xs[k] == x
    ensures forall j :: 0 <= j < k ==> xs[j] != x
  {
    if xs[0] == x then 0 else 1 + IndexOf(xs[1..], x)
  }

  /** The first position of `x` is the same in `xs` and in any prefix holding `x`. */
  lemma {:induction false} IndexOfPrefix(xs: seq<string>, k: nat, x: string)
    requires k <= |xs| && x in xs[..k]
    ensures IndexOf(xs, x) == IndexOf(xs[..k], x)
  {
    if xs[0] != x {
      assert xs[1..][..k - 1] == xs[..k][1..];
      IndexOfPrefix(xs[1..], k - 1, x);
    }
  }

  /** `s.endswith(suffix)` */
  predicate EndsWith(s: string, suffix: string)
  {
    |suffix| <= |s| && s[|s| - |suffix|..] == suffix
  }

  /** `p` occurs in `s` starting at index `i`. */
  predicate OccursAt(s: string, p: string, i: int)
  {
    0 <= i && i + |p| <= |s| && s[i..i + |p|] == p
  }

  /** `s.replace(p, "")`: deletes every occurrence of `p`, scanning left to right. */
  function RemoveAll(s: string, p: string): (r: string)
    requires |p| > 0
    ensures |r| <= |s|
    decreases |s|
  {
    if |s| < |p| then s
    else if s[..|p|] == p then RemoveAll(s[|p|..], p)
    else [s[0]] + RemoveAll(s[1..], p)
  }

  /** Text in which `p` does not occur is left unchanged by `s.replace(p, "")`. */
  lemma {:induction false} RemoveAllAbsent(s: string, p: string)
    requires |p| > 0
    requires forall i :: !OccursAt(s, p, i)
    ensures RemoveAll(s, p) == s
    decreases |s|
  {
    if |s| >= |p| {
      assert !OccursAt(s, p, 0);
      forall i | true ensures !OccursAt(s[1..], p, i) {
        if OccursAt(s[1..], p, i) {
          assert s[1..][i..i + |p|] == s[i + 1..i + 1 + |p|];
          assert OccursAt(s, p, i + 1);
        }
      }
      RemoveAllAbsent(s[1..], p);
    }
  }

  /** `s.replace(p, "")` keeps the text before the leftmost occurrence of `p`, drops that
      occurrence and carries on after it; with `RemoveAllAbsent` this fixes the result. */
  lemma RemoveAllLeftmost(s: string, p: string, k: nat)
    requires |p| > 0 && OccursAt(s, p, k)
    requires forall i :: 0 <= i < k ==> !OccursAt(s, p, i)
    ensures RemoveAll(s, p) == s[..k] + RemoveAll(s[k + |p|..], p)
  {
    RemoveAllUpTo(s, p, 0, k);
    assert s[0..] == s;
  }

  /** `RemoveAllLeftmost` for the suffix of `s` from position `j`, by induction on `k - j`. */
  lemma {:induction false} RemoveAllUpTo(s: string, p: string, j: nat, k: nat)
    requires |p| > 0 && j <= k && OccursAt(s, p, k)
    requires forall i :: j <= i < k ==> !OccursAt(s, p, i)
    ensures RemoveAll(s[j..], p) == s[j..k] + RemoveAll(s[k + |p|..], p)
    decreases k - j
  {
    if j == k {
      RemoveAllAtStart(s, p, k);
    } else {
      RemoveAllUpTo(s, p, j + 1, k);
      assert !OccursAt(s, p, j);
      RemoveAllPastStart(s, p, j);
      assert s[j..k] == [s[j]] + s[j + 1..k];
    }
  }

  /** Where `p` starts at `j`, `replace` drops it. */
  lemma RemoveAllAtStart(s: string, p: string, j: nat)
    requires |p| > 0 && OccursAt(s, p, j)
    ensures RemoveAll(s[j..], p) == RemoveAll(s[j + |p|..], p)
  {
    var u := s[j..];
    assert u[..|p|] == s[j..j + |p|];
    assert u[|p|..] == s[j + |p|..];
  }

  /** Where `p` does not start at `j` but fits, `replace` keeps the character at `j`. */
  lemma RemoveAllPastStart(s: string, p: string, j: nat)
    requires |p| > 0 && j + |p| <= |s| && !OccursAt(s, p, j)
    ensures RemoveAll(s[j..], p) == [s[j]] + RemoveAll(s[j + 1..], p)
  {
    var u := s[j..];
    assert u[..|p|] == s[j..j + |p|];
    assert u[1..] == s[j + 1..];
  }

  /** When `p` occurs in `s` only as its suffix, `s.replace(p, "")` just strips it. */
  lemma {:induction false} RemoveAllSuffixOnly(s: string, p: string)
    requires |p| > 0 && EndsWith(s, p)
    requires forall i :: 0 <= i < |s| - |p| ==> !OccursAt(s, p, i)
    ensures RemoveAll(s, p) == s[..|s| - |p|]
  {
    if |s| == |p| {
      assert s[..|p|] == p;
      assert RemoveAll(s[|p|..], p) == [];
    } else {
      assert !OccursAt(s, p, 0);
      assert s[..|p|] != p;
      var t := s[1..];
      assert t[|t| - |p|..] == s[|s| - |p|..];
      forall i | 0 <= i < |t| - |p| ensures !OccursAt(t, p, i) {
        assert !OccursAt(s, p, i + 1);
        assert t[i..i + |p|] == s[i + 1..i + 1 + |p|];
      }
      RemoveAllSuffixOnly(t, p);
      assert RemoveAll(s, p) == [s[0]] + RemoveAll(t, p);
      assert s[..|s| - |p|] == [s[0]] + t[..|t| - |p|];
    }
  }

  /** `sep.join(xs)` */
  function Join(xs: seq<string>, sep: string): string
  {
    if |xs| == 0 then []
    else if |xs| == 1 then xs[0]
    else Join(xs[..|xs| - 1], sep) + sep + xs[|xs| - 1]
  }

  /** Python's `str.isspace` on one character. */
  predicate IsSpace(c: char)
  {
    c == ' ' || c == '\t' || c == '\n' || c == '\r' || c == '\U{b}' || c == '\U{c}'
    || c == '\U{1c}' || c == '\U{1d}' || c == '\U{1e}' || c == '\U{1f}'
    || c == '\U{85}' || c == '\U{a0}' || c == '\U{1680}'
    || ('\U{2000}' <= c <= '\U{200a}')
    || c == '\U{2028}' || c == '\U{2029}' || c == '\U{202f}' || c == '\U{205f}' || c == '\U{3000}'
  }

  /** `s.strip() == ""` */
  predicate IsBlank(s: string)
  {
    forall i :: 0 <= i < |s| ==> IsSpace(s[i])
  }
}
