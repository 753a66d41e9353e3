/** Counting and filtering over sequences.  The source filters and counts
    arrays with closures (`filter`, `count`); these are the two primitives
    the rest of the model uses, with the facts about them the proofs need. */
module Counting {

  /** Number of elements of `s` that satisfy `p`. */
  function Count<T>(s: seq<T>, p: T -> bool): nat
  {
    if s == [] then 0
    else Count(s[..|s| - 1], p) + (if p(s[|s| - 1]) then 1 else 0)
  }

  /** The elements `x` of `s` with `q(x) == keep`, in their original order. */
  function Filter<T>(s: seq<T>, q: T -> bool, keep: bool): (r: seq<T>)
    ensures |r| <= |s|
  {
    if s == [] then []
    else Filter(s[..|s| - 1], q, keep) + (if q(s[|s| - 1]) == keep then [s[|s| - 1]] else [])
  }

  /** The filter keeps exactly the elements with `q(x) == keep`: each of
      them is an element of `s`, and each such element of `s` is kept. */
  lemma {:induction false} FilterMembers<T>(s: seq<T>, q: T -> bool, keep: bool)
    ensures forall i :: 0 <= i < |Filter(s, q, keep)| ==>
      Filter(s, q, keep)[i] in s && q(Filter(s, q, keep)[i]) == keep
    ensures forall i :: 0 <= i < |s| && q(s[i]) == keep ==> s[i] in Filter(s, q, keep)
  {
    if s != [] {
      var init, x := s[..|s| - 1], s[|s| - 1];
      FilterMembers(init, q, keep);
      var r := Filter(s, q, keep);
      assert r == Filter(init, q, keep) + (if q(x) == keep then [x] else []);
      forall i | 0 <= i < |r|
        ensures r[i] in s && q(r[i]) == keep
      {
        if i < |Filter(init, q, keep)| {
          assert r[i] == Filter(init, q, keep)[i];
          assert r[i] in init;
        }
      }
      forall i | 0 <= i < |s| && q(s[i]) == keep
        ensures s[i] in r
      {
        if i < |s| - 1 {
          assert s[i] == init[i];
        }
      }
    }
  }

  lemma TakeAll<T>(s: seq<T>)
    ensures s[..|s|] == s
  {
  }

  lemma CountStep<T>(s: seq<T>, i: nat, p: T -> bool)
    requires i < |s|
    ensures Count(s[..i + 1], p) == Count(s[..i], p) + (if p(s[i]) then 1 else 0)
  {
    assert s[..i + 1][..i] == s[..i];
  }

  lemma FilterStep<T>(s: seq<T>, i: nat, q: T -> bool, keep: bool)
    requires i < |s|
    ensures Filter(s[..i + 1], q, keep) == Filter(s[..i], q, keep) + (if q(s[i]) == keep then [s[i]] else [])
  {
    assert s[..i + 1][..i] == s[..i];
  }

  lemma {:induction false} CountAppend<T>(a: seq<T>, b: seq<T>, p: T -> bool)
    ensures Count(a + b, p) == Count(a, p) + Count(b, p)
  {
    if b == [] {
      assert a + b == a;
    } else {
      CountAppend(a, b[..|b| - 1], p);
      assert (a + b)[..|a + b| - 1] == a + b[..|b| - 1];
    }
  }

  /** Filtering distributes over concatenation: it keeps the order. */
  lemma {:induction false} FilterAppend<T>(a: seq<T>, b: seq<T>, q: T -> bool, keep: bool)
    ensures Filter(a + b, q, keep) == Filter(a, q, keep) + Filter(b, q, keep)
  {
    if b == [] {
      assert a + b == a;
    } else {
      FilterAppend(a, b[..|b| - 1], q, keep);
      assert (a + b)[..|a + b| - 1] == a + b[..|b| - 1];
    }
  }

  /** Counting is blind to a cyclic rotation. */
  lemma CountRotate<T>(s: seq<T>, k: nat, p: T -> bool)
    requires k <= |s|
    ensures Count(s[k..] + s[..k], p) == Count(s, p)
  {
    var front, back := s[..k], s[k..];
    assert front + back == s;
    CountAppend(back, front, p);
    CountAppend(front, back, p);
  }

  lemma {:induction false} CountNone<T>(s: seq<T>, p: T -> bool)
    requires forall i :: 0 <= i < |s| ==> !p(s[i])
    ensures Count(s, p) == 0
  {
    if s != [] {
      CountNone(s[..|s| - 1], p);
    }
  }

  lemma {:induction false} CountAll<T>(s: seq<T>, p: T -> bool)
    requires forall i :: 0 <= i < |s| ==> p(s[i])
    ensures Count(s, p) == |s|
  {
    if s != [] {
      CountAll(s[..|s| - 1], p);
    }
  }

  /** A count never exceeds the length, and reaches it only when every
      element satisfies `p`. */
  lemma {:induction false} CountFull<T>(s: seq<T>, p: T -> bool)
    ensures Count(s, p) <= |s|
    ensures Count(s, p) == |s| ==> forall i :: 0 <= i < |s| ==> p(s[i])
  {
    if s != [] {
      var init := s[..|s| - 1];
      CountFull(init, p);
      if Count(s, p) == |s| {
        forall i | 0 <= i < |s|
          ensures p(s[i])
        {
          if i < |s| - 1 {
            assert s[i] == init[i];
          }
        }
      }
    }
  }

  /** Exactly one position satisfies `p`: the count is one. */
  lemma CountUnique<T>(s: seq<T>, p: T -> bool, k: nat)
    requires k < |s| && p(s[k])
    requires forall i :: 0 <= i < |s| && p(s[i]) ==> i == k
    ensures Count(s, p) == 1
  {
    CountNone(s[..k], p);
    CountNone(s[k + 1..], p);
    assert s == s[..k] + [s[k]] + s[k + 1..];
    CountAppend(s[..k] + [s[k]], s[k + 1..], p);
    CountAppend(s[..k], [s[k]], p);
    assert Count([s[k]], p) == 1 by {
      assert [s[k]][..0] == [];
    }
  }

  /** Two sequences of equal length whose elements agree position by
      position on two predicates have equal counts. */
  lemma {:induction false} CountCorresponding<T, U>(s: seq<T>, t: seq<U>, p: T -> bool, q: U -> bool)
    requires |s| == |t|
    requires forall i :: 0 <= i < |s| ==> p(s[i]) == q(t[i])
    ensures Count(s, p) == Count(t, q)
  {
    if s != [] {
      CountCorresponding(s[..|s| - 1], t[..|t| - 1], p, q);
    }
  }

  lemma {:induction false} CountImplies<T>(s: seq<T>, p: T -> bool, q: T -> bool)
    requires forall i :: 0 <= i < |s| && p(s[i]) ==> q(s[i])
    ensures Count(s, p) <= Count(s, q)
  {
    if s != [] {
      CountImplies(s[..|s| - 1], p, q);
    }
  }

  /** Two predicates that never agree on `s` split it: their counts add up to its length. */
  lemma {:induction false} CountComplement<T>(s: seq<T>, p: T -> bool, q: T -> bool)
    requires forall i :: 0 <= i < |s| ==> p(s[i]) != q(s[i])
    ensures Count(s, p) + Count(s, q) == |s|
  {
    if s != [] {
      CountComplement(s[..|s| - 1], p, q);
    }
  }

  /** The two halves of a partition by `q` together hold every count of `s`. */
  lemma {:induction false} CountSplit<T>(s: seq<T>, q: T -> bool, p: T -> bool)
    ensures Count(Filter(s, q, true), p) + Count(Filter(s, q, false), p) == Count(s, p)
  {
    if s != [] {
      var init, x := s[..|s| - 1], s[|s| - 1];
      CountSplit(init, q, p);
      var kept, dropped := Filter(init, q, true), Filter(init, q, false);
      assert Count([x], p) == if p(x) then 1 else 0 by {
        assert [x][..0] == [];
      }
      if q(x) {
        assert Filter(s, q, true) == kept + [x];
        assert Filter(s, q, false) == dropped;
        CountAppend(kept, [x], p);
      } else {
        assert Filter(s, q, true) == kept;
        assert Filter(s, q, false) == dropped + [x];
        CountAppend(dropped, [x], p);
      }
    }
  }

  /** The kept half of a partition by `q` is as long as the count of `q`. */
  lemma {:induction false} FilterLength<T>(s: seq<T>, q: T -> bool)
    ensures |Filter(s, q, true)| == Count(s, q)
    ensures |Filter(s, q, false)| == |s| - Count(s, q)
  {
    if s != [] {
      FilterLength(s[..|s| - 1], q);
    }
  }

  /** A filter keeps as many elements as there are in the multiset sense:
      the two halves of a partition are a permutation of the whole. */
  lemma {:induction false} FilterPartition<T>(s: seq<T>, q: T -> bool)
    ensures multiset(Filter(s, q, true)) + multiset(Filter(s, q, false)) == multiset(s)
  {
    if s != [] {
      var init, x := s[..|s| - 1], s[|s| - 1];
      FilterPartition(init, q);
      assert s == init + [x];
      if q(x) {
        assert Filter(s, q, true) == Filter(init, q, true) + [x];
        assert Filter(s, q, false) == Filter(init, q, false);
      } else {
        assert Filter(s, q, true) == Filter(init, q, true);
        assert Filter(s, q, false) == Filter(init, q, false) + [x];
      }
    }
  }

  /** Counting over a prefix grows with the prefix, strictly across an element that satisfies `p`. */
  lemma {:induction false} CountPrefixGrows<T>(s: seq<T>, i: nat, j: nat, p: T -> bool)
    requires i < j <= |s| && p(s[i])
    ensures Count(s[..i], p) < Count(s[..j], p)
  {
    if j == i + 1 {
      CountStep(s, i, p);
    } else {
      CountPrefixGrows(s, i, j - 1, p);
      CountStep(s, j - 1, p);
    }
  }

  /** An element that satisfies `p` makes the count positive. */
  lemma CountAtLeastOne<T>(s: seq<T>, i: nat, p: T -> bool)
    requires i < |s| && p(s[i])
    ensures Count(s, p) >= 1
  {
    CountPrefixGrows(s, i, |s|, p);
    TakeAll(s);
  }
}
