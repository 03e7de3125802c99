/** Keep-first de-duplication by a string key, the pattern every word-bank
    loader uses: walk the items in order, remember the keys seen so far, keep
    an item only if its key is new. */
module Dedup {

  function KeySet<T>(items: seq<T>, key: T -> string): set<string> {
    set i | 0 <= i < |items| :: key(items[i])
  }

  predicate DistinctKeys<T>(items: seq<T>, key: T -> string) {
    forall i, j :: 0 <= i < j < |items| ==> key(items[i]) != key(items[j])
  }

  /** `items[j]` is the first item with its key, and its key was not
      already seen. */
  predicate IsFirstOccurrence<T>(items: seq<T>, key: T -> string, seen: set<string>, j: int) {
    0 <= j < |items| && key(items[j]) !in seen
    && forall k :: 0 <= k < j ==> key(items[k]) != key(items[j])
  }

  function KeepFirst<T>(items: seq<T>, key: T -> string, seen: set<string>): (r: seq<T>)
    ensures |r| <= |items|
    ensures DistinctKeys(r, key)
    ensures forall i :: 0 <= i < |r| ==> key(r[i]) !in seen
    ensures KeySet(r, key) == KeySet(items, key) - seen
    ensures forall x :: x in r ==> x in items
    decreases |items|
  {
    if |items| == 0 then []
    else
      var k := key(items[0]);
      var rest := KeepFirst(items[1..], key, seen + {k});
      assert KeySet(items, key) == {k} + KeySet(items[1..], key) by {
        assert forall i :: 0 < i < |items| ==> items[i] == items[1..][i - 1];
      }
      if k in seen then
        KeepFirst(items[1..], key, seen)
      else
        var r := [items[0]] + rest;
        assert KeySet(r, key) == {k} + KeySet(rest, key) by {
          assert key(r[0]) == k;
          forall y | y in KeySet(rest, key) ensures y in KeySet(r, key) {
            var i :| 0 <= i < |rest| && key(rest[i]) == y;
            assert r[i + 1] == rest[i];
          }
          forall y | y in KeySet(r, key) ensures y in {k} + KeySet(rest, key) {
            var i :| 0 <= i < |r| && key(r[i]) == y;
            if i > 0 {
              assert r[i] == rest[i - 1];
            }
          }
        }
        r
  }

  /** The items dropped by `KeepFirst`, in order. */
  function Skipped<T>(items: seq<T>, key: T -> string, seen: set<string>): (r: seq<T>)
    ensures |KeepFirst(items, key, seen)| + |r| == |items|
    ensures forall i :: 0 <= i < |r| ==> key(r[i]) in seen + KeySet(KeepFirst(items, key, seen), key)
    decreases |items|
  {
    if |items| == 0 then []
    else
      var k := key(items[0]);
      if k in seen then [items[0]] + Skipped(items[1..], key, seen)
      else Skipped(items[1..], key, seen + {k})
  }

  /** Every kept item is the first occurrence of its key. */
  lemma {:induction false} KeptAreFirst<T>(items: seq<T>, key: T -> string, seen: set<string>)
    ensures var r := KeepFirst(items, key, seen);
            forall x :: x in r ==> exists j :: IsFirstOccurrence(items, key, seen, j) && items[j] == x
    decreases |items|
  {
    if |items| > 0 {
      var k := key(items[0]);
      var r := KeepFirst(items, key, seen);
      if k in seen {
        assert r == KeepFirst(items[1..], key, seen);
        KeptAreFirst(items[1..], key, seen);
        forall x | x in r ensures exists j :: IsFirstOccurrence(items, key, seen, j) && items[j] == x {
          var j :| IsFirstOccurrence(items[1..], key, seen, j) && items[1..][j] == x;
          assert IsFirstOccurrence(items, key, seen, j + 1);
        }
      } else {
        assert r == [items[0]] + KeepFirst(items[1..], key, seen + {k});
        KeptAreFirst(items[1..], key, seen + {k});
        forall x | x in r ensures exists j :: IsFirstOccurrence(items, key, seen, j) && items[j] == x {
          if x == items[0] {
            assert IsFirstOccurrence(items, key, seen, 0);
          } else {
            var j :| IsFirstOccurrence(items[1..], key, seen + {k}, j) && items[1..][j] == x;
            assert IsFirstOccurrence(items, key, seen, j + 1);
          }
        }
      }
    }
  }

  /** Keeping first occurrences leaves an already duplicate-free list (none
      of whose keys were seen) unchanged. */
  lemma {:induction false} KeepFirstOfDistinct<T>(items: seq<T>, key: T -> string, seen: set<string>)
    requires DistinctKeys(items, key)
    requires forall i :: 0 <= i < |items| ==> key(items[i]) !in seen
    ensures KeepFirst(items, key, seen) == items
    decreases |items|
  {
    if |items| > 0 {
      var k := key(items[0]);
      assert forall i :: 0 < i < |items| ==> items[1..][i - 1] == items[i];
      KeepFirstOfDistinct(items[1..], key, seen + {k});
      assert [items[0]] + items[1..] == items;
    }
  }

  /** De-duplication is idempotent. */
  lemma KeepFirstIdempotent<T>(items: seq<T>, key: T -> string)
    ensures KeepFirst(KeepFirst(items, key, {}), key, {}) == KeepFirst(items, key, {})
  {
    KeepFirstOfDistinct(KeepFirst(items, key, {}), key, {});
  }

  lemma KeySetCons<T>(items: seq<T>, key: T -> string)
    requires |items| > 0
    ensures KeySet(items, key) == {key(items[0])} + KeySet(items[1..], key)
  {
    assert forall i :: 0 < i < |items| ==> items[i] == items[1..][i - 1];
  }

  lemma KeySetAppend<T>(a: seq<T>, b: seq<T>, key: T -> string)
    ensures KeySet(a + b, key) == KeySet(a, key) + KeySet(b, key)
  {
    forall y | y in KeySet(a + b, key) ensures y in KeySet(a, key) + KeySet(b, key) {
      var i :| 0 <= i < |a + b| && key((a + b)[i]) == y;
      if i >= |a| {
        assert (a + b)[i] == b[i - |a|];
      }
    }
    forall y | y in KeySet(a, key) + KeySet(b, key) ensures y in KeySet(a + b, key) {
      if y in KeySet(a, key) {
        var i :| 0 <= i < |a| && key(a[i]) == y;
        assert (a + b)[i] == a[i];
      } else {
        var i :| 0 <= i < |b| && key(b[i]) == y;
        assert (a + b)[|a| + i] == b[i];
      }
    }
  }

  /** De-duplicating a concatenation in one pass is de-duplicating the first
      part, then the second part against every key of the first: the
      per-lesson loops that share one `seen` set equal a single pass over
      the flattened list. */
  lemma {:induction false} KeepFirstAppend<T>(a: seq<T>, b: seq<T>, key: T -> string, seen: set<string>)
    ensures KeepFirst(a + b, key, seen) == KeepFirst(a, key, seen) + KeepFirst(b, key, seen + KeySet(a, key))
    decreases |a|
  {
    if |a| == 0 {
      assert a + b == b;
      assert KeySet(a, key) == {};
      assert seen + KeySet(a, key) == seen;
    } else {
      var k := key(a[0]);
      assert (a + b)[0] == a[0];
      assert (a + b)[1..] == a[1..] + b;
      KeySetCons(a, key);
      if k in seen {
        KeepFirstAppend(a[1..], b, key, seen);
        assert seen + KeySet(a[1..], key) == seen + KeySet(a, key);
      } else {
        KeepFirstAppend(a[1..], b, key, seen + {k});
        assert seen + {k} + KeySet(a[1..], key) == seen + KeySet(a, key);
      }
    }
  }
}
