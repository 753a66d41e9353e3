/** The circle method (Tournament.swift, lines 238-252, 350-356 and the
    index rotation at lines 363 and 386-387).

    A working roster of even size `n` is addressed by indices `0..n-1`.
    Each theoretical round pairs position `i` of an index arrangement with
    position `n-1-i`; between rounds the last index moves to position 1,
    so index 0 stays put and the others turn around it. */
module Circle {
  import opened Counting
  import opened Arith

  /** A pairing of two roster indices (the source's `(Int, Int)`). */
  datatype Pair = Pair(first: nat, second: nat)

  /** The pairing joins `u` and `v`, in either orientation. */
  function Joins(u: nat, v: nat): Pair -> bool
  {
    (p: Pair) => (p.first == u && p.second == v) || (p.first == v && p.second == u)
  }

  /** The pairing involves index `x`. */
  function Holds(x: nat): Pair -> bool
  {
    (p: Pair) => p.first == x || p.second == x
  }

  /** Every index of `ps` is below `n`. */
  predicate PairsWithin(ps: seq<Pair>, n: nat)
  {
    forall i :: 0 <= i < |ps| ==> ps[i].first < n && ps[i].second < n
  }

  /** `s` holds each of `0..|s|-1` exactly once. */
  predicate IsPermutation(s: seq<nat>)
  {
    (forall i :: 0 <= i < |s| ==> s[i] < |s|) &&
    (forall i, j :: 0 <= i < j < |s| ==> s[i] != s[j]) &&
    (forall x: nat :: x < |s| ==> x in s)
  }

  // ---------------------------------------------------------------------
  // Pairings of one theoretical round (generateRoundPairings)
  // ---------------------------------------------------------------------

  /** Pairing `i` of a round: positions `i` and `n-1-i`, swapped on odd rounds. */
  function Oriented(a: nat, b: nat, idealRound: nat): Pair
  {
    if idealRound % 2 == 0 then Pair(a, b) else Pair(b, a)
  }

  function CirclePairs(indices: seq<nat>, matchesPerRound: nat, idealRound: nat): (ps: seq<Pair>)
    requires 1 <= matchesPerRound <= |indices|
    ensures |ps| == matchesPerRound
  {
    seq(matchesPerRound, i requires 0 <= i < matchesPerRound =>
      Oriented(indices[i], indices[|indices| - 1 - i], idealRound))
  }

  /** generateRoundPairings: the first pairing joins the first and last
      indices, pairing `i` joins `indices[i]` and `indices[n-1-i]`. */
  method GenerateRoundPairings(indices: seq<nat>, matchesPerRound: nat, idealRound: nat)
    returns (pairings: seq<Pair>)
    requires 1 <= matchesPerRound <= |indices|
    ensures pairings == CirclePairs(indices, matchesPerRound, idealRound)
  {
    var n := |indices|;
    pairings := [if idealRound % 2 == 0 then Pair(indices[0], indices[n - 1]) else Pair(indices[n - 1], indices[0])];
    for i := 1 to matchesPerRound
      invariant pairings == CirclePairs(indices, matchesPerRound, idealRound)[..i]
    {
      pairings := pairings + [if idealRound % 2 == 0 then Pair(indices[i], indices[n - 1 - i]) else Pair(indices[n - 1 - i], indices[i])];
    }
  }

  /** On an odd round every pairing is the even-round pairing turned around. */
  lemma OddRoundSwaps(indices: seq<nat>, matchesPerRound: nat, idealRound: nat)
    requires 1 <= matchesPerRound <= |indices| && idealRound % 2 == 1
    ensures forall i :: 0 <= i < matchesPerRound ==>
      CirclePairs(indices, matchesPerRound, idealRound)[i].first == CirclePairs(indices, matchesPerRound, 0)[i].second &&
      CirclePairs(indices, matchesPerRound, idealRound)[i].second == CirclePairs(indices, matchesPerRound, 0)[i].first
  {
  }

  /** For a permutation of an even roster, the `n/2` pairings of a round
      never join an index with itself and use only roster indices. */
  lemma RoundPairsAreProper(s: seq<nat>, idealRound: nat)
    requires IsPermutation(s) && |s| >= 2 && |s| % 2 == 0
    ensures PairsWithin(CirclePairs(s, |s| / 2, idealRound), |s|)
    ensures forall i :: 0 <= i < |s| / 2 ==>
      CirclePairs(s, |s| / 2, idealRound)[i].first != CirclePairs(s, |s| / 2, idealRound)[i].second
  {
    var n := |s|;
    forall i | 0 <= i < n / 2
      ensures s[i] != s[n - 1 - i]
    {
      assert i < n - 1 - i;
    }
  }

  /** For a permutation of an even roster, every index is in exactly one
      pairing of the round. */
  lemma EachIndexInOnePairing(s: seq<nat>, idealRound: nat, x: nat)
    requires IsPermutation(s) && |s| >= 2 && |s| % 2 == 0 && x < |s|
    ensures Count(CirclePairs(s, |s| / 2, idealRound), Holds(x)) == 1
  {
    assert x in s;
    var p :| 0 <= p < |s| && s[p] == x;
    forall q | 0 <= q < |s| && s[q] == x
      ensures q == p
    {
      DistinctAt(s, q, p);
    }
    IndexInOnePairing(s, idealRound, x, p);
  }

  /** An index found at exactly one position `p` is in exactly one pairing. */
  lemma IndexInOnePairing(s: seq<nat>, idealRound: nat, x: nat, p: nat)
    requires |s| >= 2 && |s| % 2 == 0 && p < |s| && s[p] == x
    requires forall q :: 0 <= q < |s| && s[q] == x ==> q == p
    ensures Count(CirclePairs(s, |s| / 2, idealRound), Holds(x)) == 1
  {
    var n := |s|;
    var ps := CirclePairs(s, n / 2, idealRound);
    var k := if p < n / 2 then p else n - 1 - p;
    assert ps[k] == Oriented(s[k], s[n - 1 - k], idealRound);
    forall i | 0 <= i < |ps| && Holds(x)(ps[i])
      ensures i == k
    {
      assert ps[i] == Oriented(s[i], s[n - 1 - i], idealRound);
    }
    CountUnique(ps, Holds(x), k);
  }

  /** For a permutation of an even roster, `u` and `v` meet in the round
      exactly when their positions are mirror images (`pu + pv == n-1`),
      and then in exactly one pairing. */
  lemma MeetWhenMirrored(s: seq<nat>, idealRound: nat, u: nat, v: nat, pu: nat, pv: nat)
    requires IsPermutation(s) && |s| >= 2 && |s| % 2 == 0
    requires pu < |s| && pv < |s| && s[pu] == u && s[pv] == v && u != v
    ensures Count(CirclePairs(s, |s| / 2, idealRound), Joins(u, v)) == if pu + pv == |s| - 1 then 1 else 0
  {
    forall q | 0 <= q < |s| && (s[q] == u || s[q] == v)
      ensures (s[q] == u ==> q == pu) && (s[q] == v ==> q == pv)
    {
      DistinctAt(s, q, pu);
      DistinctAt(s, q, pv);
    }
    MeetAtPositions(s, idealRound, u, v, pu, pv);
  }

  /** Indices found at exactly one position each meet only when those
      positions mirror each other. */
  lemma MeetAtPositions(s: seq<nat>, idealRound: nat, u: nat, v: nat, pu: nat, pv: nat)
    requires |s| >= 2 && |s| % 2 == 0
    requires pu < |s| && pv < |s| && s[pu] == u && s[pv] == v && u != v
    requires forall q :: 0 <= q < |s| && (s[q] == u || s[q] == v) ==> (s[q] == u ==> q == pu) && (s[q] == v ==> q == pv)
    ensures Count(CirclePairs(s, |s| / 2, idealRound), Joins(u, v)) == if pu + pv == |s| - 1 then 1 else 0
  {
    var n := |s|;
    var ps := CirclePairs(s, n / 2, idealRound);
    forall i | 0 <= i < |ps| && Joins(u, v)(ps[i])
      ensures pu + pv == n - 1 && i == (if pu < pv then pu else pv)
    {
      assert ps[i] == Oriented(s[i], s[n - 1 - i], idealRound);
      assert (s[i] == u && s[n - 1 - i] == v) || (s[i] == v && s[n - 1 - i] == u);
    }
    if pu + pv == n - 1 {
      var k := if pu < pv then pu else pv;
      assert ps[k] == Oriented(s[k], s[n - 1 - k], idealRound);
      CountUnique(ps, Joins(u, v), k);
    } else {
      CountNone(ps, Joins(u, v));
    }
  }

  // ---------------------------------------------------------------------
  // Cyclic shift of a round's pairings (rotatePairingsIfNeeded)
  // ---------------------------------------------------------------------

  /** `r mod m` by repeated subtraction. */
  function Wrap(r: nat, m: nat): (w: nat)
    requires m > 0
    ensures w < m
    decreases r
  {
    if r < m then r else Wrap(r - m, m)
  }

  lemma {:induction false} WrapIsMod(r: nat, m: nat)
    requires m > 0
    ensures Wrap(r, m) == r % m
  {
    if r < m {
      ModSmall(r, m);
    } else {
      WrapIsMod(r - m, m);
      ModShift(r - m, m, 1);
    }
  }

  /** The cyclic left shift of `ps` by `shift`. */
  function RotateLeft(ps: seq<Pair>, shift: nat): (rotated: seq<Pair>)
    requires shift <= |ps|
    ensures |rotated| == |ps|
  {
    if shift == 0 then ps else ps[shift..] + ps[..shift]
  }

  /** Element `i` of the shift is element `i + shift` of the input, wrapping around. */
  lemma RotateLeftAt(ps: seq<Pair>, shift: nat, i: nat)
    requires shift <= |ps| && i < |ps|
    ensures RotateLeft(ps, shift)[i] == if i + shift < |ps| then ps[i + shift] else ps[i + shift - |ps|]
  {
  }

  /** The cyclic left shift of `s` by `shift`: element `i` is `s[(i + shift) mod |s|]`. */
  lemma RotationIndexing<T>(s: seq<T>, shift: nat)
    requires shift <= |s|
    ensures forall i :: 0 <= i < |s| ==> (s[shift..] + s[..shift])[i] == s[(i + shift) % |s|]
    ensures multiset(s[shift..] + s[..shift]) == multiset(s)
  {
    forall i | 0 <= i < |s|
      ensures (s[shift..] + s[..shift])[i] == s[(i + shift) % |s|]
    {
      if i + shift < |s| {
        ModSmall(i + shift, |s|);
      } else {
        ModUnique(i + shift, |s|, 1, i + shift - |s|);
      }
    }
    assert s == s[..shift] + s[shift..];
  }

  /** rotatePairingsIfNeeded: a cyclic left shift by `idealRound % matchesPerRound`,
      which leaves the pairings alone when that shift is zero. */
  function RotatePairings(pairings: seq<Pair>, idealRound: nat, matchesPerRound: nat): (rotated: seq<Pair>)
    requires matchesPerRound > 0 && idealRound % matchesPerRound <= |pairings|
    ensures |rotated| == |pairings|
  {
    RotateLeft(pairings, idealRound % matchesPerRound)
  }

  /** The shift is a cyclic rotation: pairing `i` of the result is pairing
      `i + shift` of the input, wrapping around; nothing is lost or
      duplicated, and a zero shift changes nothing. */
  lemma RotatePairingsIsCyclic(pairings: seq<Pair>, idealRound: nat, matchesPerRound: nat)
    requires matchesPerRound > 0 && idealRound % matchesPerRound <= |pairings|
    ensures idealRound % matchesPerRound == 0 ==> RotatePairings(pairings, idealRound, matchesPerRound) == pairings
    ensures forall i :: 0 <= i < |pairings| ==>
      RotatePairings(pairings, idealRound, matchesPerRound)[i] == pairings[(i + idealRound % matchesPerRound) % |pairings|]
    ensures multiset(RotatePairings(pairings, idealRound, matchesPerRound)) == multiset(pairings)
  {
    var shift := idealRound % matchesPerRound;
    RotationIndexing(pairings, shift);
    assert RotatePairings(pairings, idealRound, matchesPerRound) == RotateLeft(pairings, shift);
    if shift == 0 {
      assert pairings[shift..] + pairings[..shift] == pairings;
    }
  }

  /** A cyclic shift changes no count over the pairings. */
  lemma CountRotateLeft(ps: seq<Pair>, shift: nat, p: Pair -> bool)
    requires shift <= |ps|
    ensures Count(RotateLeft(ps, shift), p) == Count(ps, p)
  {
    if shift != 0 {
      CountRotate(ps, shift, p);
    }
  }

  // ---------------------------------------------------------------------
  // The rotating index arrangement (indices.removeLast / insert(at: 1))
  // ---------------------------------------------------------------------

  /** The arrangement after one rotation: the last index moves to position 1. */
  function Rotated(s: seq<nat>): seq<nat>
    requires |s| >= 2
  {
    [s[0], s[|s| - 1]] + s[1..|s| - 1]
  }

  /** `let last = indices.removeLast(); indices.insert(last, at: 1)`, in place. */
  method RotateIndices(a: array<nat>)
    requires a.Length >= 2
    modifies a
    ensures a[..] == Rotated(old(a[..]))
  {
    var n := a.Length;
    var last := a[n - 1];
    var k := n - 1;
    while k > 1
      invariant 1 <= k <= n - 1
      invariant a[..k] == old(a[..k])
      invariant forall j :: k < j < n ==> a[j] == old(a[j - 1])
    {
      a[k] := a[k - 1];
      k := k - 1;
    }
    a[1] := last;
    assert a[..] == Rotated(old(a[..]));
  }

  /** The position before the rotation of the element at position `k` after it. */
  function Back(n: nat, k: nat): nat
    requires n >= 1
  {
    if k == 0 then 0 else if k == 1 then n - 1 else k - 1
  }

  lemma RotatedAt(s: seq<nat>, k: nat)
    requires |s| >= 2 && k < |s|
    ensures |Rotated(s)| == |s| && Back(|s|, k) < |s| && Rotated(s)[k] == s[Back(|s|, k)]
  {
  }

  /** The rotation keeps index 0 in front and keeps a permutation a permutation. */
  lemma RotationKeepsPermutation(s: seq<nat>)
    requires IsPermutation(s) && |s| >= 2
    ensures IsPermutation(Rotated(s)) && Rotated(s)[0] == s[0] && |Rotated(s)| == |s|
  {
    var n := |s|;
    var t := Rotated(s);
    RotatedAt(s, 0);
    forall i | 0 <= i < n
      ensures t[i] < n
    {
      RotatedAt(s, i);
    }
    forall x: nat | x < n
      ensures x in t
    {
      assert x in s;
      var j :| 0 <= j < n && s[j] == x;
      var k := if j == 0 then 0 else if j == n - 1 then 1 else j + 1;
      RotatedAt(s, k);
      assert t[k] == x;
    }
    forall i, j | 0 <= i < j < n
      ensures t[i] != t[j]
    {
      RotatedAt(s, i);
      RotatedAt(s, j);
      DistinctAt(s, Back(n, i), Back(n, j));
    }
  }

  /** In a permutation, two entries are equal exactly at the same position. */
  lemma DistinctAt(s: seq<nat>, i: nat, j: nat)
    requires IsPermutation(s) && i < |s| && j < |s|
    ensures s[i] == s[j] <==> i == j
  {
    if i > j {
      assert s[j] != s[i];
    }
  }

  /** The arrangement before theoretical round `r`: `Array(0..<n)` rotated
      `r` times. */
  function Arrangement(n: nat, r: nat): (s: seq<nat>)
    requires n >= 2
    ensures |s| == n
  {
    if r == 0 then seq(n, i => i) else Rotated(Arrangement(n, r - 1))
  }

  /** The same arrangement in closed form: index 0 stays at position 0 and
      position `j >= 1` holds `1 + (j - 1 - r) mod (n - 1)`. */
  function ClosedArrangement(n: nat, r: nat): (s: seq<nat>)
    requires n >= 2
    ensures |s| == n
  {
    seq(n, j requires 0 <= j < n => if j == 0 then 0 else 1 + (j - 1 - r) % (n - 1))
  }

  /** Where index `v` sits in `Arrangement(n, r)`. */
  function Position(n: nat, r: nat, v: nat): nat
    requires n >= 2
  {
    if v == 0 then 0 else 1 + (v - 1 + r) % (n - 1)
  }

  lemma ClosedStart(n: nat)
    requires n >= 2
    ensures ClosedArrangement(n, 0) == seq(n, i => i)
  {
    forall j | 1 <= j < n
      ensures ClosedArrangement(n, 0)[j] == j
    {
      ModSmall(j - 1, n - 1);
    }
  }

  lemma ClosedRotates(n: nat, r: nat)
    requires n >= 2 && r >= 1
    ensures Rotated(ClosedArrangement(n, r - 1)) == ClosedArrangement(n, r)
  {
    var m := n - 1;
    var s, t := ClosedArrangement(n, r - 1), ClosedArrangement(n, r);
    forall j | 0 <= j < n
      ensures Rotated(s)[j] == t[j]
    {
      RotatedAt(s, j);
      if j == 1 {
        assert s[n - 1] == 1 + (m - 1 - (r - 1)) % m;
        var back: int := -1 - (r - 1);
        assert t[1] == 1 + back % m;
        ModShift(back, m, 1);
      } else if j >= 2 {
        assert s[j - 1] == 1 + (j - 2 - (r - 1)) % m;
        assert j - 2 - (r - 1) == j - 1 - r;
      }
    }
    RotatedAt(s, 0);
  }

  /** Rotating `r` times is the closed form. */
  lemma {:induction false} ArrangementClosedForm(n: nat, r: nat)
    requires n >= 2
    ensures Arrangement(n, r) == ClosedArrangement(n, r)
  {
    if r == 0 {
      ClosedStart(n);
    } else {
      ArrangementClosedForm(n, r - 1);
      ClosedRotates(n, r);
    }
  }

  /** `Position` is the inverse of `Arrangement`. */
  lemma ArrangementPosition(n: nat, r: nat, v: nat)
    requires n >= 2 && v < n
    ensures Position(n, r, v) < n && Arrangement(n, r)[Position(n, r, v)] == v
  {
    ArrangementClosedForm(n, r);
    ClosedPosition(n, r, v);
  }

  lemma PositionOfArrangement(n: nat, r: nat, j: nat)
    requires n >= 2 && j < n
    ensures Arrangement(n, r)[j] < n && Position(n, r, Arrangement(n, r)[j]) == j
  {
    ArrangementClosedForm(n, r);
    PositionOfClosed(n, r, j);
  }

  lemma ClosedPosition(n: nat, r: nat, v: nat)
    requires n >= 2 && v < n
    ensures Position(n, r, v) < n && ClosedArrangement(n, r)[Position(n, r, v)] == v
  {
    if v != 0 {
      ModUndo(v - 1, r, n - 1);
    }
  }

  lemma PositionOfClosed(n: nat, r: nat, j: nat)
    requires n >= 2 && j < n
    ensures ClosedArrangement(n, r)[j] < n && Position(n, r, ClosedArrangement(n, r)[j]) == j
  {
    if j != 0 {
      var m := n - 1;
      var a := (j - 1 - r) % m;
      assert j - 1 - r == ((j - 1 - r) / m) * m + a;
      assert a + r == (j - 1) + (-((j - 1 - r) / m)) * m;
      ModShift(j - 1, m, -((j - 1 - r) / m));
      ModSmall(j - 1, m);
    }
  }

  lemma ArrangementIsPermutation(n: nat, r: nat)
    requires n >= 2
    ensures IsPermutation(Arrangement(n, r)) && Arrangement(n, r)[0] == 0
  {
    var s := Arrangement(n, r);
    PositionOfArrangement(n, r, 0);
    forall j | 0 <= j < n
      ensures s[j] < n
    {
      PositionOfArrangement(n, r, j);
    }
    forall i, j | 0 <= i < j < n
      ensures s[i] != s[j]
    {
      PositionOfArrangement(n, r, i);
      PositionOfArrangement(n, r, j);
    }
    forall x: nat | x < n
      ensures x in s
    {
      ArrangementPosition(n, r, x);
    }
  }

  // ---------------------------------------------------------------------
  // In which round two indices meet
  // ---------------------------------------------------------------------

  /** `u` and `v` sit at mirrored positions of round `r`'s arrangement. */
  predicate MeetInRound(n: nat, r: nat, u: nat, v: nat)
    requires n >= 2
  {
    Position(n, r, u) + Position(n, r, v) == n - 1
  }

  /** The one theoretical round in which `u` and `v` meet. */
  function MeetingRound(n: nat, u: nat, v: nat): nat
    requires n >= 2 && u < n && v < n
  {
    var m := n - 1;
    if u == 0 then (if v == m then 0 else m - v)
    else if v == 0 then (if u == m then 0 else m - u)
    else
      var s := (2 * m - u - v) % m;
      if s % 2 == 0 then s / 2 else (s + m) / 2
  }

  /** With index 0 involved, the meeting round is the one that brings the
      other index to the last position. */
  lemma MeetingRoundWithZero(n: nat, v: nat, r: nat)
    requires n >= 2 && 0 < v < n && r < n - 1
    ensures MeetingRound(n, 0, v) < n - 1
    ensures MeetInRound(n, r, 0, v) <==> r == MeetingRound(n, 0, v)
  {
    var m := n - 1;
    var r0 := MeetingRound(n, 0, v);
    assert (v - 1 + r0) % m == m - 1 by {
      if v == m {
        ModSmall(m - 1, m);
      } else {
        assert v - 1 + r0 == m - 1;
        ModSmall(m - 1, m);
      }
    }
    if MeetInRound(n, r, 0, v) {
      ModClose(v - 1 + r, v - 1 + r0, m);
    }
  }

  /** Two remainders add up to the remainder of the sum, or that plus the modulus. */
  lemma ModSum(x: int, y: int, m: int)
    requires m > 0
    ensures x % m + y % m == (x + y) % m || x % m + y % m == (x + y) % m + m
  {
    var t := x % m + y % m;
    ModAdd(x, y, m);
    ModAdd(y, x % m, m);
    assert t % m == (x + y) % m;
    if t < m {
      ModSmall(t, m);
    } else {
      ModUnique(t, m, 1, t - m);
    }
  }

  /** Twice the meeting round is congruent to `-(u + v)` modulo `n - 1`. */
  lemma MeetingRoundDoubled(n: nat, u: nat, v: nat)
    requires n >= 3 && n % 2 == 0 && 0 < u < n && 0 < v < n
    ensures MeetingRound(n, u, v) < n - 1
    ensures (u + v - 2 + 2 * MeetingRound(n, u, v)) % (n - 1) == n - 3
  {
    var m := n - 1;
    var w := 2 * m - u - v;
    var s := w % m;
    var r0 := MeetingRound(n, u, v);
    HalveModOdd(s, m);
    var t := u + v - 2;
    assert (s + t) % m == m - 2 by {
      ModAdd(w, t, m);
      assert w + t == 2 * m - 2;
      ModUnique(2 * m - 2, m, 1, m - 2);
    }
    if 2 * r0 != s {
      ModShift(s + t, m, 1);
    }
  }

  /** Halving modulo an odd `m`: the half of `s` is `s / 2` or `(s + m) / 2`. */
  lemma HalveModOdd(s: int, m: int)
    requires m > 0 && m % 2 == 1 && 0 <= s < m
    ensures var r0 := if s % 2 == 0 then s / 2 else (s + m) / 2;
      0 <= r0 < m && (2 * r0 == s || 2 * r0 == s + m)
  {
  }

  /** A round in which `u + v - 2 + 2r` leaves remainder `n - 3` is a meeting round. */
  lemma RemainderMeets(n: nat, u: nat, v: nat, r: nat)
    requires n >= 3 && 0 < u < n && 0 < v < n && u != v
    requires (u + v - 2 + 2 * r) % (n - 1) == n - 3
    ensures MeetInRound(n, r, u, v)
  {
    var m := n - 1;
    var x, y := u - 1 + r, v - 1 + r;
    assert x + y == u + v - 2 + 2 * r;
    ModSum(x, y, m);
    if x % m == y % m {
      ModClose(x, y, m);
    }
  }

  /** With neither index 0, `u` and `v` do meet in `MeetingRound(n, u, v)`. */
  lemma MeetingRoundMeets(n: nat, u: nat, v: nat)
    requires n >= 2 && n % 2 == 0 && 0 < u < n && 0 < v < n && u != v
    ensures MeetingRound(n, u, v) < n - 1
    ensures MeetInRound(n, MeetingRound(n, u, v), u, v)
  {
    MeetingRoundDoubled(n, u, v);
    RemainderMeets(n, u, v, MeetingRound(n, u, v));
  }

  /** Shifting by twice a number smaller than an odd modulus keeps the
      remainder only when the number is zero. */
  lemma DoubleShift(x: int, d: int, m: int)
    requires m > 0 && m % 2 == 1 && -m < d < m && (x + 2 * d) % m == x % m
    ensures d == 0
  {
    var q, q' := x / m, (x + 2 * d) / m;
    assert x == q * m + x % m;
    assert x + 2 * d == q' * m + x % m;
    assert 2 * d == q' * m - q * m;
    assert q' * m - q * m == (q' - q) * m;
    DoubleModOdd(d, m, q' - q);
  }

  /** In a meeting round `r` the remainder of `u + v - 2 + 2r` modulo `n - 1` is `n - 3`. */
  lemma MeetingRemainder(n: nat, u: nat, v: nat, r: nat)
    requires n >= 2 && 0 < u < n && 0 < v < n && MeetInRound(n, r, u, v)
    ensures (u + v - 2 + 2 * r) % (n - 1) == n - 3
  {
    var m, x, y := n - 1, u - 1 + r, v - 1 + r;
    assert x % m + y % m == m - 2;
    SumRemainder(x, y, m);
    assert x + y == u + v - 2 + 2 * r;
  }

  lemma SumRemainder(x: int, y: int, m: int)
    requires m >= 2 && x % m + y % m == m - 2
    ensures (x + y) % m == m - 2
  {
    ModSum(x, y, m);
  }

  /** Two rounds below the odd `m` that leave the same remainder for
      `x + 2r` coincide: twice their difference is a multiple of `m`. */
  lemma MeetingRoundOnly(m: int, x: int, k: int, r: int, r': int)
    requires m > 0 && m % 2 == 1 && 0 <= r < m && 0 <= r' < m
    requires (x + 2 * r) % m == k && (x + 2 * r') % m == k
    ensures r == r'
  {
    assert x + 2 * r == (x + 2 * r') + 2 * (r - r');
    DoubleShift(x + 2 * r', r - r', m);
  }

  /** With neither index 0, exactly one round below `n - 1` brings `u` and `v` together. */
  lemma MeetingRoundWithoutZero(n: nat, u: nat, v: nat, r: nat)
    requires n >= 2 && n % 2 == 0 && 0 < u < n && 0 < v < n && u != v && r < n - 1
    ensures MeetingRound(n, u, v) < n - 1
    ensures MeetInRound(n, r, u, v) <==> r == MeetingRound(n, u, v)
  {
    MeetingRoundMeets(n, u, v);
    if MeetInRound(n, r, u, v) {
      MeetingRemainder(n, u, v, r);
      MeetOnlyThen(n, u, v, r);
    }
  }

  /** With neither index 0, a round below `n - 1` that leaves the meeting
      remainder is the meeting round. */
  lemma MeetOnlyThen(n: nat, u: nat, v: nat, r: nat)
    requires n >= 3 && n % 2 == 0 && 0 < u < n && 0 < v < n && r < n - 1
    requires (u + v - 2 + 2 * r) % (n - 1) == n - 3
    ensures r == MeetingRound(n, u, v)
  {
    MeetingRoundDoubled(n, u, v);
    EvenRosterRemainder(n, u + v - 2, r, MeetingRound(n, u, v));
  }

  /** For an even roster the modulus `n - 1` is odd, so two rounds below it
      with the same remainder of `x + 2r` coincide. */
  lemma EvenRosterRemainder(n: nat, x: int, r: int, r': int)
    requires n >= 3 && n % 2 == 0 && 0 <= r < n - 1 && 0 <= r' < n - 1
    requires (x + 2 * r) % (n - 1) == (x + 2 * r') % (n - 1)
    ensures r == r'
  {
    var m := n - 1;
    assert m % 2 == 1;
    MeetingRoundOnly(m, x, (x + 2 * r) % m, r, r');
  }

  /** Each pair of distinct roster indices meets in exactly one round below `n - 1`. */
  lemma MeetingRoundUnique(n: nat, u: nat, v: nat, r: nat)
    requires n >= 2 && n % 2 == 0 && u < n && v < n && u != v && r < n - 1
    ensures MeetingRound(n, u, v) < n - 1
    ensures MeetInRound(n, r, u, v) <==> r == MeetingRound(n, u, v)
  {
    if u == 0 {
      MeetingRoundWithZero(n, v, r);
    } else if v == 0 {
      MeetingRoundWithZero(n, u, r);
      assert MeetingRound(n, u, v) == MeetingRound(n, 0, u);
    } else {
      MeetingRoundWithoutZero(n, u, v, r);
    }
  }

  /** The pairings of round `r` (before the cyclic shift) join `u` and `v`
      once if `r` is their meeting round and never otherwise. */
  lemma RoundJoins(n: nat, r: nat, u: nat, v: nat)
    requires n >= 2 && n % 2 == 0 && u < n && v < n && u != v && r < n - 1
    ensures Count(CirclePairs(Arrangement(n, r), n / 2, r), Joins(u, v)) ==
      if r == MeetingRound(n, u, v) then 1 else 0
  {
    ArrangementIsPermutation(n, r);
    ArrangementPosition(n, r, u);
    ArrangementPosition(n, r, v);
    MeetWhenMirrored(Arrangement(n, r), r, u, v, Position(n, r, u), Position(n, r, v));
    MeetingRoundUnique(n, u, v, r);
  }
}
