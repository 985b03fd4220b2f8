/**
 * The two array operations the history list is built from, on sequences:
 * `Filter` is JavaScript's `Array.prototype.filter` and `Take` is
 * `Array.prototype.slice(0, n)` for a non-negative `n`. Beside them, what it
 * means for one sequence to be an order-preserving subsequence of another.
 */
module Sequences {

  /** The elements of `s` that satisfy `p`, in their original order. */
  function Filter<T>(s: seq<T>, p: T -> bool): (r: seq<T>)
    ensures |r| <= |s|
  {
    if |s| == 0 then []
    else if p(s[0]) then [s[0]] + Filter(s[1..], p)
    else Filter(s[1..], p)
  }

  /** The first `n` elements of `s`, or all of `s` when it is shorter. */
  function Take<T>(s: seq<T>, n: nat): (r: seq<T>)
    ensures |r| == if n < |s| then n else |s|
    ensures r <= s
  {
    if n < |s| then s[..n] else s
  }

  /** The elements of `s` in reverse order. */
  function Reverse<T>(s: seq<T>): (r: seq<T>)
    ensures |r| == |s|
    ensures forall i :: 0 <= i < |s| ==> r[i] == s[|s| - 1 - i]
  {
    if |s| == 0 then [] else [s[|s| - 1]] + Reverse(s[..|s| - 1])
  }

  /**
   * `idx` maps each position of `a` to a position of `b` holding the same
   * element, and the positions it picks are strictly increasing.
   */
  ghost predicate Embeds<T>(idx: seq<nat>, a: seq<T>, b: seq<T>)
  {
    && |idx| == |a|
    && (forall k :: 0 <= k < |idx| ==> idx[k] < |b| && a[k] == b[idx[k]])
    && (forall j, k :: 0 <= j < k < |idx| ==> idx[j] < idx[k])
  }

  /** `a` is `b` with some elements removed and the rest left in order. */
  ghost predicate IsSubsequence<T>(a: seq<T>, b: seq<T>)
  {
    exists idx :: Embeds(idx, a, b)
  }

  /** Filter keeps exactly the elements that satisfy `p`. */
  lemma {:induction false} FilterMembership<T>(s: seq<T>, p: T -> bool, x: T)
    ensures x in Filter(s, p) <==> x in s && p(x)
  {
    if |s| > 0 {
      FilterMembership(s[1..], p, x);
      assert s == [s[0]] + s[1..];
    }
  }

  /** Filter keeps every copy of an element that satisfies `p` and no copy of one that does not. */
  lemma {:induction false} FilterCount<T>(s: seq<T>, p: T -> bool, x: T)
    ensures multiset(Filter(s, p))[x] == if p(x) then multiset(s)[x] else 0
  {
    if |s| > 0 {
      FilterCount(s[1..], p, x);
      assert s == [s[0]] + s[1..];
    }
  }

  /** The positions of `s` whose elements Filter keeps, in increasing order. */
  lemma {:induction false} FilterEmbedding<T>(s: seq<T>, p: T -> bool) returns (idx: seq<nat>)
    ensures Embeds(idx, Filter(s, p), s)
    ensures forall k :: 0 <= k < |idx| ==> p(s[idx[k]])
  {
    if |s| == 0 {
      idx := [];
    } else {
      var tail := FilterEmbedding(s[1..], p);
      var rest := Filter(s[1..], p);
      var shifted := seq(|tail|, k requires 0 <= k < |tail| => tail[k] + 1);
      assert Embeds(shifted, rest, s) by {
        forall k | 0 <= k < |shifted| ensures shifted[k] < |s| && rest[k] == s[shifted[k]] {
          assert s[1..][tail[k]] == s[tail[k] + 1];
        }
      }
      forall k | 0 <= k < |shifted| ensures p(s[shifted[k]]) {
        assert s[1..][tail[k]] == s[tail[k] + 1];
      }
      if p(s[0]) {
        idx := [0] + shifted;
        assert Filter(s, p) == [s[0]] + rest;
      } else {
        idx := shifted;
      }
    }
  }

  /** Filter never reorders what it keeps. */
  lemma FilterIsSubsequence<T>(s: seq<T>, p: T -> bool)
    ensures IsSubsequence(Filter(s, p), s)
  {
    var idx := FilterEmbedding(s, p);
  }

  /** Filter distributes over concatenation. */
  lemma {:induction false} FilterAppend<T>(a: seq<T>, b: seq<T>, p: T -> bool)
    ensures Filter(a + b, p) == Filter(a, p) + Filter(b, p)
  {
    if |a| == 0 {
      assert a + b == b;
    } else {
      var rest := Filter(a[1..], p) + Filter(b, p);
      FilterAppend(a[1..], b, p);
      assert (a + b)[0] == a[0];
      assert (a + b)[1..] == a[1..] + b;
      if p(a[0]) {
        calc {
          Filter(a + b, p);
          [a[0]] + Filter(a[1..] + b, p);
          [a[0]] + rest;
          ([a[0]] + Filter(a[1..], p)) + Filter(b, p);
        }
      } else {
        assert Filter(a + b, p) == rest;
      }
    }
  }

  /**
   * Filter returns a list as long as its input exactly when it returns its
   * input, and that is exactly when every element satisfies `p`.
   */
  lemma {:induction false} FilterKeepsAll<T>(s: seq<T>, p: T -> bool)
    ensures |Filter(s, p)| == |s| <==> Filter(s, p) == s
    ensures Filter(s, p) == s <==> forall i :: 0 <= i < |s| ==> p(s[i])
  {
    if |s| > 0 {
      FilterKeepsAll(s[1..], p);
      if !p(s[0]) {
        assert |Filter(s, p)| < |s|;
      }
      if forall i :: 0 <= i < |s| ==> p(s[i]) {
        assert forall i :: 0 <= i < |s[1..]| ==> p(s[1..][i]) by {
          forall i | 0 <= i < |s[1..]| ensures p(s[1..][i]) { assert s[1..][i] == s[i + 1]; }
        }
      } else {
        var i :| 0 <= i < |s| && !p(s[i]);
        if i > 0 {
          assert s[1..][i - 1] == s[i];
        }
      }
    }
  }

  /** Filtering a second time with the same predicate changes nothing. */
  lemma FilterIdempotent<T>(s: seq<T>, p: T -> bool)
    ensures Filter(Filter(s, p), p) == Filter(s, p)
  {
    var r := Filter(s, p);
    forall i | 0 <= i < |r| ensures p(r[i]) {
      FilterMembership(s, p, r[i]);
    }
    FilterKeepsAll(r, p);
  }

  /**
   * When at most one element of `s` fails `p`, Filter removes at most one
   * element.
   */
  lemma {:induction false} FilterDropsAtMostOne<T>(s: seq<T>, p: T -> bool)
    requires forall i, j :: 0 <= i < j < |s| ==> p(s[i]) || p(s[j])
    ensures |Filter(s, p)| + 1 >= |s|
  {
    if |s| > 0 {
      if p(s[0]) {
        FilterDropsAtMostOne(s[1..], p);
      } else {
        FilterKeepsAll(s[1..], p);
        assert forall i :: 0 <= i < |s[1..]| ==> p(s[1..][i]) by {
          forall i | 0 <= i < |s[1..]| ensures p(s[1..][i]) {
            assert s[1..][i] == s[i + 1];
          }
        }
      }
    }
  }
}
