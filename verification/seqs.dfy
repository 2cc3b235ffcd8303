/**
  Order-preserving selection on sequences: keeping the elements that pass a
  test, and keeping the results of a partial conversion.
 */
module Seqs {
  import opened Optional

  /** The elements of `s` that satisfy `keep`, in their original order. */
  function Select<T>(s: seq<T>, keep: T -> bool): seq<T>
    decreases |s|
  {
    if |s| == 0 then []
    else if keep(s[0]) then [s[0]] + Select(s[1..], keep)
    else Select(s[1..], keep)
  }

  /** `Select` keeps every passing element as often as it occurs, drops
      every failing one, and keeps an all-passing sequence whole. */
  lemma SelectKeeps<T(!new)>(s: seq<T>, keep: T -> bool)
    ensures forall x :: multiset(Select(s, keep))[x] == if keep(x) then multiset(s)[x] else 0
    ensures forall k :: 0 <= k < |Select(s, keep)| ==> keep(Select(s, keep)[k])
    ensures (forall k :: 0 <= k < |s| ==> keep(s[k])) ==> Select(s, keep) == s
  {
    SelectCounts(s, keep);
    SelectPasses(s, keep);
    if forall k :: 0 <= k < |s| ==> keep(s[k]) {
      SelectAllPass(s, keep);
    }
  }

  lemma {:induction false} SelectCounts<T(!new)>(s: seq<T>, keep: T -> bool)
    ensures forall x :: multiset(Select(s, keep))[x] == if keep(x) then multiset(s)[x] else 0
    decreases |s|
  {
    if |s| > 0 {
      assert s == [s[0]] + s[1..];
      SelectCounts(s[1..], keep);
    }
  }

  lemma {:induction false} SelectPasses<T>(s: seq<T>, keep: T -> bool)
    ensures forall k :: 0 <= k < |Select(s, keep)| ==> keep(Select(s, keep)[k])
    decreases |s|
  {
    if |s| > 0 {
      SelectPasses(s[1..], keep);
      var rest := Select(s[1..], keep);
      if keep(s[0]) {
        forall k | 0 <= k < |Select(s, keep)| ensures keep(Select(s, keep)[k]) {
          if k > 0 { assert Select(s, keep)[k] == rest[k - 1]; }
        }
      }
    }
  }

  lemma {:induction false} SelectAllPass<T>(s: seq<T>, keep: T -> bool)
    requires forall k :: 0 <= k < |s| ==> keep(s[k])
    ensures Select(s, keep) == s
    decreases |s|
  {
    if |s| > 0 {
      assert forall k :: 0 <= k < |s[1..]| ==> keep(s[1..][k]) by {
        forall k | 0 <= k < |s[1..]| ensures keep(s[1..][k]) {
          assert s[1..][k] == s[k + 1];
        }
      }
      SelectAllPass(s[1..], keep);
      assert s == [s[0]] + s[1..];
    }
  }

  /** `Select` with its contract attached: what survives, how often, and that
      nothing is dropped when everything passes. */
  function Filter<T(==,!new)>(s: seq<T>, keep: T -> bool): (r: seq<T>)
    ensures forall x :: multiset(r)[x] == if keep(x) then multiset(s)[x] else 0
    ensures forall k :: 0 <= k < |r| ==> keep(r[k])
    ensures (forall k :: 0 <= k < |s| ==> keep(s[k])) ==> r == s
  {
    SelectKeeps(s, keep);
    Select(s, keep)
  }

  /** The values of `f` on the elements of `s` where it has one, in order. */
  function FilterMap<T, R>(s: seq<T>, f: T -> Option<R>): (r: seq<R>)
    ensures |r| <= |s|
    ensures (forall k :: 0 <= k < |s| ==> f(s[k]).None?) ==> r == []
  {
    if |s| == 0 then []
    else
      match f(s[0])
      case Some(y) => [y] + FilterMap(s[1..], f)
      case None => FilterMap(s[1..], f)
  }

  /** Every element with a value contributes it. */
  lemma {:induction false} FilterMapCover<T, R>(s: seq<T>, f: T -> Option<R>, k: int)
    requires 0 <= k < |s| && f(s[k]).Some?
    ensures f(s[k]).value in FilterMap(s, f)
    decreases k
  {
    if k > 0 {
      assert s[1..][k - 1] == s[k];
      FilterMapCover(s[1..], f, k - 1);
    }
  }

  /** Every kept value is the value of some element. */
  lemma {:induction false} FilterMapFrom<T, R>(s: seq<T>, f: T -> Option<R>, y: R)
    requires y in FilterMap(s, f)
    ensures exists k :: 0 <= k < |s| && f(s[k]) == Some(y)
    decreases |s|
  {
    if f(s[0]) == Some(y) {
      assert f(s[0]) == Some(y);
    } else {
      assert y in FilterMap(s[1..], f);
      FilterMapFrom(s[1..], f, y);
      var k :| 0 <= k < |s[1..]| && f(s[1..][k]) == Some(y);
      assert s[k + 1] == s[1..][k];
    }
  }

  /** One value per element that has one: as many as `Filter` keeps. */
  lemma {:induction false} FilterMapLength<T(!new), R>(s: seq<T>, f: T -> Option<R>, has: T -> bool)
    requires forall x :: has(x) <==> f(x).Some?
    ensures |FilterMap(s, f)| == |Filter(s, has)|
    decreases |s|
  {
    if |s| > 0 {
      FilterMapLength(s[1..], f, has);
    }
  }

  /** One more element contributes its value, if it has one, at the end: the
      step of a loop that converts each element in turn. */
  lemma {:induction false} FilterMapAppend<T, R>(s: seq<T>, x: T, f: T -> Option<R>)
    ensures FilterMap(s + [x], f) == FilterMap(s, f) + (if f(x).Some? then [f(x).value] else [])
    decreases |s|
  {
    var t := s + [x];
    if |s| == 0 {
      assert t[1..] == [];
    } else {
      assert t[0] == s[0] && t[1..] == s[1..] + [x];
      FilterMapAppend(s[1..], x, f);
    }
  }

  /** `FilterMap` on two elements. */
  lemma FilterMapPair<T, R>(a: T, b: T, f: T -> Option<R>)
    ensures FilterMap([a, b], f) ==
      (if f(a).Some? then [f(a).value] else []) + (if f(b).Some? then [f(b).value] else [])
  {
    assert [a, b][1..] == [b];
    assert [b][1..] == [];
  }

  /** Conversions that agree on every element keep the same values. */
  lemma {:induction false} FilterMapAgree<T, R>(s: seq<T>, f: T -> Option<R>, g: T -> Option<R>)
    requires forall k :: 0 <= k < |s| ==> f(s[k]) == g(s[k])
    ensures FilterMap(s, f) == FilterMap(s, g)
    decreases |s|
  {
    if |s| > 0 {
      assert forall k :: 0 <= k < |s[1..]| ==> f(s[1..][k]) == g(s[1..][k]) by {
        forall k | 0 <= k < |s[1..]| ensures f(s[1..][k]) == g(s[1..][k]) {
          assert s[1..][k] == s[k + 1];
        }
      }
      assert f(s[0]) == g(s[0]);
      FilterMapAgree(s[1..], f, g);
    }
  }

  /** Selecting distributes over appending one element. */
  lemma {:induction false} SelectAppend<T>(s: seq<T>, x: T, keep: T -> bool)
    ensures Select(s + [x], keep) == Select(s, keep) + (if keep(x) then [x] else [])
    decreases |s|
  {
    var t := s + [x];
    if |s| == 0 {
      assert t[1..] == [];
    } else {
      assert t[0] == s[0] && t[1..] == s[1..] + [x];
      SelectAppend(s[1..], x, keep);
    }
  }

  /** Filtering distributes over appending one element. */
  lemma FilterAppend<T(!new)>(s: seq<T>, x: T, keep: T -> bool)
    ensures Filter(s + [x], keep) == Filter(s, keep) + (if keep(x) then [x] else [])
  {
    SelectAppend(s, x, keep);
  }

  /** Moves the cut between `y` and `x` to `a` elements into `x`. */
  lemma Regroup<T>(y: seq<T>, x: seq<T>, a: nat)
    requires a <= |x|
    ensures y + x == (y + x[..a]) + x[a..]
  {
    assert x == x[..a] + x[a..];
  }

  /** A sequence cut at `i` and again `n` further on. */
  lemma CutAround<T>(s: seq<T>, i: nat, n: nat)
    requires i + n <= |s|
    ensures s == s[..i] + s[i..]
    ensures s[i..] == s[i..i + n] + s[i + n..]
  {
  }

  /** A sequence is the concatenation of the three pieces two nested cuts
      leave, with or without something appended. */
  lemma CutTwice<T>(x: seq<T>, y: seq<T>, a: nat, n: nat)
    requires a <= |x| && n <= |x[a..]|
    ensures x == x[..a] + (x[a..][..n] + x[a..][n..])
    ensures x + y == x[..a] + (x[a..][..n] + (x[a..][n..] + y))
  {
    assert x[a..] == x[a..][..n] + x[a..][n..];
    assert x == x[..a] + x[a..];
  }

  /** A sequence is the concatenation of the four pieces three nested cuts leave. */
  lemma CutThrice<T>(s: seq<T>, a: nat, n: nat, m: nat)
    requires a <= |s| && n <= |s[a..]| && m <= |s[a..][n..]|
    ensures s == s[..a] + s[a..][..n] + s[a..][n..][..m] + s[a..][n..][m..]
  {
    assert s[a..] == s[a..][..n] + s[a..][n..];
    assert s[a..][n..] == s[a..][n..][..m] + s[a..][n..][m..];
  }

  /** Dropping `a`, then `b`, then `c` elements drops `a + b + c`, which
      leaves a suffix of the same length. */
  lemma DropThrice<T>(s: seq<T>, a: nat, b: nat, c: nat)
    requires a <= |s| && b <= |s[a..]| && c <= |s[a..][b..]|
    ensures s[a..][b..][c..] == s[a + b + c..]
    ensures s[|s| - |s[a..][b..][c..]|..] == s[a..][b..][c..]
  {
  }

  /** A non-empty sequence is its front followed by its last element. */
  lemma SplitLast<T>(s: seq<T>)
    requires |s| > 0
    ensures s == s[..|s| - 1] + [s[|s| - 1]]
  {
  }

  /** A sequence is what comes before index `i`, the element at `i`, and what comes after. */
  lemma AroundIndex<T>(s: seq<T>, i: int)
    requires 0 <= i < |s|
    ensures s == s[..i] + [s[i]] + s[i + 1..]
  {
  }

  /** Puts the head of `x` back in front of its tail inside a concatenation. */
  lemma ConsTail<T>(whole: seq<T>, x: seq<T>, rest: seq<T>, tail: seq<T>)
    requires |x| > 0 && whole == [x[0]] + rest && rest == x[1..] + tail
    ensures whole == x + tail
  {
    assert [x[0]] + x[1..] == x;
    assert [x[0]] + (x[1..] + tail) == ([x[0]] + x[1..]) + tail;
  }

}
