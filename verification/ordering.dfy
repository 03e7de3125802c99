/** Orders and sorting. Python's `sorted` and JavaScript's `Array.sort`
    are both modelled by one insertion sort, parameterised by the
    comparison the source passes (or implies); its contract states the
    order and the multiset of the result, not the order of equal
    elements. */
module Ordering {
  import opened Text

  /** Lexicographic order on code points (Dafny's `char` order): Python's
      string comparison. JavaScript's default `Array.prototype.sort`
      compares UTF-16 code units instead; the two orders agree on
      characters up to U+FFFF. */
  predicate LexLeq(a: string, b: string)
    decreases |a|
  {
    |a| == 0 || (|b| > 0 && (a[0] < b[0] || (a[0] == b[0] && LexLeq(a[1..], b[1..]))))
  }

  lemma {:induction false} LexTotal(a: string, b: string)
    ensures LexLeq(a, b) || LexLeq(b, a)
    decreases |a|
  {
    if |a| > 0 && |b| > 0 && a[0] == b[0] {
      LexTotal(a[1..], b[1..]);
    }
  }

  lemma {:induction false} LexAntisymmetric(a: string, b: string)
    requires LexLeq(a, b) && LexLeq(b, a)
    ensures a == b
    decreases |a|
  {
    if |a| > 0 {
      LexAntisymmetric(a[1..], b[1..]);
      assert a == [a[0]] + a[1..];
      assert b == [b[0]] + b[1..];
    }
  }

  /** Python's `key=lambda s: (s.lower(), s)`: case-insensitive first,
      ties broken by the exact string. */
  predicate CaseFoldLeq(a: string, b: string) {
    if Lower(a) == Lower(b) then LexLeq(a, b) else LexLeq(Lower(a), Lower(b))
  }

  lemma CaseFoldTotal(a: string, b: string)
    ensures CaseFoldLeq(a, b) || CaseFoldLeq(b, a)
  {
    LexTotal(a, b);
    LexTotal(Lower(a), Lower(b));
  }

  ghost predicate Total<T(!new)>(leq: (T, T) -> bool) {
    forall a, b :: leq(a, b) || leq(b, a)
  }

  lemma LexLeqIsTotal()
    ensures Total(LexLeq)
  {
    forall a, b ensures LexLeq(a, b) || LexLeq(b, a) {
      LexTotal(a, b);
    }
  }

  lemma CaseFoldLeqIsTotal()
    ensures Total(CaseFoldLeq)
  {
    forall a, b ensures CaseFoldLeq(a, b) || CaseFoldLeq(b, a) {
      CaseFoldTotal(a, b);
    }
  }

  /** Every adjacent pair is in order. */
  predicate SortedBy<T>(s: seq<T>, leq: (T, T) -> bool) {
    forall i :: 0 < i < |s| ==> leq(s[i - 1], s[i])
  }

  predicate Distinct<T(==)>(s: seq<T>) {
    forall i, j :: 0 <= i < j < |s| ==> s[i] != s[j]
  }

  /** Inserts `x` before the first element it is not after. */
  function InsertBy<T(!new)>(x: T, s: seq<T>, leq: (T, T) -> bool): (r: seq<T>)
    ensures multiset(r) == multiset(s) + multiset{x}
    ensures |r| == |s| + 1
    ensures r[0] == x || (|s| > 0 && r[0] == s[0])
    ensures Total(leq) && SortedBy(s, leq) ==> SortedBy(r, leq)
    decreases |s|
  {
    if |s| == 0 then [x]
    else if leq(x, s[0]) then [x] + s
    else
      var rest := InsertBy(x, s[1..], leq);
      assert s == [s[0]] + s[1..];
      InsertStep(x, s, rest, leq);
      [s[0]] + rest
  }

  /** Inserting past the head keeps the order when the head is before
      the insertion into the tail. */
  lemma InsertStep<T(!new)>(x: T, s: seq<T>, rest: seq<T>, leq: (T, T) -> bool)
    requires |s| > 0 && !leq(x, s[0]) && |rest| > 0
    requires rest[0] == x || (|s| > 1 && rest[0] == s[1])
    requires Total(leq) && SortedBy(s[1..], leq) ==> SortedBy(rest, leq)
    ensures Total(leq) && SortedBy(s, leq) ==> SortedBy([s[0]] + rest, leq)
  {
    if Total(leq) && SortedBy(s, leq) {
      assert SortedBy(s[1..], leq) by {
        forall i | 0 < i < |s[1..]| ensures leq(s[1..][i - 1], s[1..][i]) {
          assert s[1..][i - 1] == s[i] && s[1..][i] == s[i + 1];
        }
      }
      assert leq(s[0], rest[0]) by {
        if rest[0] == x {
          assert leq(x, s[0]) || leq(s[0], x);
        } else {
          assert leq(s[0], s[1]);
        }
      }
      var r := [s[0]] + rest;
      forall i | 0 < i < |r| ensures leq(r[i - 1], r[i]) {
        if i > 1 {
          assert r[i - 1] == rest[i - 2] && r[i] == rest[i - 1];
        }
      }
    }
  }

  /** An insertion sort under `leq`. */
  function SortBy<T(!new)>(s: seq<T>, leq: (T, T) -> bool): (r: seq<T>)
    ensures multiset(r) == multiset(s)
    ensures |r| == |s|
    ensures Total(leq) ==> SortedBy(r, leq)
    decreases |s|
  {
    if |s| == 0 then []
    else
      assert s == [s[0]] + s[1..];
      InsertBy(s[0], SortBy(s[1..], leq), leq)
  }

  lemma DistinctByMultiset<T>(s: seq<T>)
    ensures Distinct(s) <==> forall x :: x in multiset(s) ==> multiset(s)[x] == 1
  {
    if Distinct(s) {
      forall x | x in multiset(s) ensures multiset(s)[x] == 1 {
        DistinctCount(s, x);
      }
    } else {
      var i, j :| 0 <= i < j < |s| && s[i] == s[j];
      var x := s[i];
      assert s == s[..j] + [x] + s[j + 1..];
      assert x in multiset(s[..j]) by { assert s[..j][i] == x; }
      assert multiset(s)[x] == multiset(s[..j])[x] + 1 + multiset(s[j + 1..])[x];
    }
  }

  lemma {:induction false} DistinctCount<T>(s: seq<T>, x: T)
    requires Distinct(s)
    ensures multiset(s)[x] <= 1
    decreases |s|
  {
    if |s| > 0 {
      assert s == [s[0]] + s[1..];
      assert Distinct(s[1..]) by {
        forall i, j | 0 <= i < j < |s[1..]| ensures s[1..][i] != s[1..][j] {
          assert s[1..][i] == s[i + 1] && s[1..][j] == s[j + 1];
        }
      }
      DistinctCount(s[1..], x);
      if s[0] == x {
        assert x !in s[1..] by {
          forall k | 0 <= k < |s[1..]| ensures s[1..][k] != x {
            assert s[1..][k] == s[k + 1];
          }
        }
      }
    }
  }

  /** Sorting keeps the elements, so a duplicate-free sequence stays
      duplicate-free. */
  lemma SortKeepsDistinct<T(!new)>(s: seq<T>, leq: (T, T) -> bool)
    requires Distinct(s)
    ensures Distinct(SortBy(s, leq))
  {
    DistinctByMultiset(s);
    DistinctByMultiset(SortBy(s, leq));
  }

  lemma SortKeepsElements<T(!new)>(s: seq<T>, leq: (T, T) -> bool)
    ensures forall x :: x in SortBy(s, leq) <==> x in s
  {
    var r := SortBy(s, leq);
    assert forall x :: x in r <==> x in multiset(r);
    assert forall x :: x in s <==> x in multiset(s);
  }

  /** The elements of a finite set in some order, each once. */
  ghost function SeqOfSet<T(!new)>(s: set<T>): (r: seq<T>)
    ensures |r| == |s|
    ensures forall x :: x in r <==> x in s
    ensures Distinct(r)
  {
    if s == {} then []
    else
      var x :| x in s;
      [x] + SeqOfSet(s - {x})
  }

  /** Python `sorted(s, key=...)` applied to a set. */
  ghost function SortedSet<T(!new)>(s: set<T>, leq: (T, T) -> bool): (r: seq<T>)
    ensures |r| == |s|
    ensures forall x :: x in r <==> x in s
    ensures Distinct(r)
    ensures Total(leq) ==> SortedBy(r, leq)
  {
    var q := SeqOfSet(s);
    SortKeepsDistinct(q, leq);
    SortKeepsElements(q, leq);
    SortBy(q, leq)
  }

  function ToSet<T>(s: seq<T>): set<T> {
    set x | x in s
  }

  /** The union of `f` over the elements of a sequence. */
  function UnionOver<T, U(==,!new)>(xs: seq<T>, f: T -> set<U>): (r: set<U>)
    ensures forall w :: w in r <==> exists i :: 0 <= i < |xs| && w in f(xs[i])
    decreases |xs|
  {
    if |xs| == 0 then {}
    else
      var rest := UnionOver(xs[1..], f);
      UnionStep(xs, f, rest);
      f(xs[0]) + rest
  }

  lemma UnionStep<T, U>(xs: seq<T>, f: T -> set<U>, rest: set<U>)
    requires |xs| > 0
    requires forall w :: w in rest <==> exists i :: 0 <= i < |xs[1..]| && w in f(xs[1..][i])
    ensures forall w :: w in f(xs[0]) + rest <==> exists i :: 0 <= i < |xs| && w in f(xs[i])
  {
    forall w | w in f(xs[0]) + rest ensures exists i :: 0 <= i < |xs| && w in f(xs[i]) {
      if w !in f(xs[0]) {
        var j :| 0 <= j < |xs[1..]| && w in f(xs[1..][j]);
        assert xs[1..][j] == xs[j + 1];
      }
    }
    forall w | exists i :: 0 <= i < |xs| && w in f(xs[i]) ensures w in f(xs[0]) + rest {
      var i :| 0 <= i < |xs| && w in f(xs[i]);
      if i > 0 {
        assert xs[i] == xs[1..][i - 1];
      }
    }
  }

  function MapSeq<A, B>(s: seq<A>, f: A -> B): (r: seq<B>)
    ensures |r| == |s| && forall i :: 0 <= i < |s| ==> r[i] == f(s[i])
  {
    seq(|s|, i requires 0 <= i < |s| => f(s[i]))
  }

  /** Taking the same element out of two permutations leaves two
      permutations. */
  lemma RemoveFromBoth<T>(a: seq<T>, b: seq<T>, k: nat)
    requires multiset(a) == multiset(b) && |a| > 0 && k < |b| && b[k] == a[0]
    ensures multiset(a[1..]) == multiset(b[..k] + b[k + 1..])
  {
    assert a == [a[0]] + a[1..];
    assert b == b[..k] + [b[k]] + b[k + 1..];
    assert multiset(a[1..]) == multiset(a) - multiset{a[0]};
    assert multiset(b[..k] + b[k + 1..]) == multiset(b) - multiset{a[0]};
  }

  /** Mapping two permutations of each other gives two permutations. */
  lemma {:induction false} MapPermute<A, B>(a: seq<A>, b: seq<A>, f: A -> B)
    requires multiset(a) == multiset(b)
    ensures multiset(MapSeq(a, f)) == multiset(MapSeq(b, f))
    decreases |a|
  {
    if |a| > 0 {
      var x := a[0];
      assert x in multiset(b);
      var k :| 0 <= k < |b| && b[k] == x;
      var b' := b[..k] + b[k + 1..];
      RemoveFromBoth(a, b, k);
      MapPermute(a[1..], b', f);
      MapPermuteStep(a, b, k, f);
    }
  }

  lemma MapPermuteStep<A, B>(a: seq<A>, b: seq<A>, k: nat, f: A -> B)
    requires |a| > 0 && k < |b| && b[k] == a[0]
    requires multiset(MapSeq(a[1..], f)) == multiset(MapSeq(b[..k] + b[k + 1..], f))
    ensures multiset(MapSeq(a, f)) == multiset(MapSeq(b, f))
  {
    var x := a[0];
    var l := MapSeq(b[..k], f);
    var r := MapSeq(b[k + 1..], f);
    var y := f(x);
    assert MapSeq(b, f) == l + ([y] + r) by {
      assert b == b[..k] + ([x] + b[k + 1..]);
      MapSeqAppend(b[..k], [x] + b[k + 1..], f);
      MapSeqAppend([x], b[k + 1..], f);
      assert MapSeq([x], f) == [y];
      assert MapSeq([x] + b[k + 1..], f) == [y] + r;
    }
    assert MapSeq(a, f) == [y] + MapSeq(a[1..], f) by {
      assert a == [x] + a[1..];
      MapSeqAppend([x], a[1..], f);
      assert MapSeq([x], f) == [y];
    }
    assert MapSeq(b[..k] + b[k + 1..], f) == l + r by {
      MapSeqAppend(b[..k], b[k + 1..], f);
    }
    MultisetMiddle(l, y, r);
  }

  lemma MultisetMiddle<T>(l: seq<T>, y: T, r: seq<T>)
    ensures multiset(l + ([y] + r)) == multiset{y} + multiset(l + r)
  {
  }

  lemma MapSeqAppend<A, B>(a: seq<A>, b: seq<A>, f: A -> B)
    ensures MapSeq(a + b, f) == MapSeq(a, f) + MapSeq(b, f)
  {
  }

  /** A sequence has at least as many entries as distinct values, and
      exactly as many iff it has no repeats. */
  lemma {:induction false} ToSetSize<T>(s: seq<T>)
    ensures |ToSet(s)| <= |s|
    ensures |ToSet(s)| == |s| <==> Distinct(s)
    decreases |s|
  {
    if |s| == 0 {
      assert ToSet(s) == {};
    } else {
      var t := s[1..];
      ToSetSize(t);
      ToSetCons(s);
      DistinctCons(s);
    }
  }

  lemma ToSetCons<T>(s: seq<T>)
    requires |s| > 0
    ensures ToSet(s) == {s[0]} + ToSet(s[1..])
  {
    assert s == [s[0]] + s[1..];
  }

  /** A non-empty sequence has no repeats iff its head is not in its tail
      and its tail has none. */
  lemma DistinctCons<T>(s: seq<T>)
    requires |s| > 0
    ensures Distinct(s) <==> s[0] !in s[1..] && Distinct(s[1..])
  {
    var t := s[1..];
    if Distinct(s) {
      forall i, j | 0 <= i < j < |t| ensures t[i] != t[j] {
        assert t[i] == s[i + 1] && t[j] == s[j + 1];
      }
    }
    if s[0] !in t && Distinct(t) {
      forall i, j | 0 <= i < j < |s| ensures s[i] != s[j] {
        assert s[j] == t[j - 1];
        if i > 0 {
          assert s[i] == t[i - 1];
        }
      }
    }
  }

  function Min(a: int, b: int): int {
    if a <= b then a else b
  }

  function Max(a: int, b: int): int {
    if a >= b then a else b
  }

  /** `n || 1`: a missing (zero) count counts as one. */
  function OrOne(n: nat): nat {
    if n == 0 then 1 else n
  }

  /** `whole > 0 ? Math.round(part / whole * 100) : 0`: the percentage,
      halves rounded up, within half a point of the exact ratio. */
  function Percent(part: nat, whole: nat): (r: nat)
    ensures whole == 0 ==> r == 0
    ensures whole > 0 ==> (2 * r - 1) * whole <= 200 * part < (2 * r + 1) * whole
  {
    if whole == 0 then 0
    else
      var q := (200 * part + whole) / (2 * whole);
      DivBounds(200 * part + whole, 2 * whole);
      assert (2 * q - 1) * whole == q * (2 * whole) - whole;
      assert (2 * q + 1) * whole == (q + 1) * (2 * whole) - whole;
      q
  }

  lemma DivBounds(n: nat, d: nat)
    requires d > 0
    ensures (n / d) * d <= n < (n / d + 1) * d
  {
  }

  lemma MulLeq(a: int, b: int, f: nat)
    requires a <= b
    ensures a * f <= b * f
  {
  }

  /** A part no larger than the whole is at most 100 percent, and reaching
      `p` percent means reaching `p - 0.5` percent exactly. */
  lemma PercentBounds(part: nat, whole: nat, p: nat)
    requires whole > 0
    ensures part <= whole ==> Percent(part, whole) <= 100
    ensures Percent(part, whole) >= p <==> 200 * part >= (2 * p - 1) * whole
  {
    var r := Percent(part, whole);
    if part <= whole && r > 100 {
      MulLeq(201, 2 * r - 1, whole);
    }
    if r >= p {
      MulLeq(2 * p - 1, 2 * r - 1, whole);
    } else {
      MulLeq(2 * r + 1, 2 * p - 1, whole);
    }
  }

  /** `list.splice(i, 1)`: the sequence without its `i`-th element. */
  function RemoveAt<T>(s: seq<T>, i: nat): (r: seq<T>)
    requires i < |s|
    ensures |r| == |s| - 1
    ensures forall k :: 0 <= k < |r| ==> r[k] == if k < i then s[k] else s[k + 1]
  {
    s[..i] + s[i + 1..]
  }

  /** `list.filter(p)`: the elements satisfying `p`, in their order. */
  function Filter<T(!new)>(s: seq<T>, p: T -> bool): (r: seq<T>)
    ensures |r| <= |s|
    ensures forall x :: x in r <==> x in s && p(x)
    decreases |s|
  {
    if |s| == 0 then []
    else (if p(s[0]) then [s[0]] else []) + Filter(s[1..], p)
  }
}
