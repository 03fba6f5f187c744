/** Sequence operations the browser borrows from JavaScript's Array:
    `filter` (order-preserving selection) and `slice(0, end)`. */
module Sequences {

  /** `Array.prototype.filter`: the elements of `s` that satisfy `p`, in order. */
  function Select<T(==)>(s: seq<T>, p: T -> bool): (r: seq<T>)
    ensures |r| <= |s|
    ensures forall i :: 0 <= i < |r| ==> r[i] in s && p(r[i])
    ensures forall i :: 0 <= i < |s| && p(s[i]) ==> s[i] in r
    decreases |s|
  {
    if |s| == 0 then []
    else if p(s[0]) then [s[0]] + Select(s[1..], p)
    else Select(s[1..], p)
  }

  /** `r` lists the elements of `s` at positions `idx`. */
  ghost predicate ListsAt<T>(r: seq<T>, s: seq<T>, idx: seq<int>)
  {
    && |idx| == |r|
    && forall k :: 0 <= k < |idx| ==> 0 <= idx[k] < |s| && r[k] == s[idx[k]]
  }

  ghost predicate StrictlyIncreasing(idx: seq<int>)
  {
    forall k, l :: 0 <= k < l < |idx| ==> idx[k] < idx[l]
  }

  /** `idx` holds exactly the positions of `s` whose element satisfies `p`. */
  ghost predicate Covers<T>(s: seq<T>, p: T -> bool, idx: seq<int>)
  {
    forall i :: 0 <= i < |s| ==> (p(s[i]) <==> i in idx)
  }

  /** `r` lists `s` at the strictly increasing positions `idx`, and `idx` holds
      exactly the positions of `s` whose element satisfies `p`. */
  ghost predicate PicksExactly<T>(r: seq<T>, s: seq<T>, p: T -> bool, idx: seq<int>)
  {
    ListsAt(r, s, idx) && StrictlyIncreasing(idx) && Covers(s, p, idx)
  }

  /** Selection is an exact, order-preserving filter: it is the subsequence of
      `s` made of every position whose element passes, and of no other. */
  lemma {:induction false} SelectPicksExactly<T>(s: seq<T>, p: T -> bool) returns (idx: seq<int>)
    ensures PicksExactly(Select(s, p), s, p, idx)
    decreases |s|
  {
    if |s| == 0 {
      idx := [];
    } else {
      var rest := SelectPicksExactly(s[1..], p);
      var shifted := Shift(rest);
      ShiftLists(Select(s[1..], p), s, rest);
      ShiftIncreasing(rest);
      ShiftCovers(s, p, rest);
      if p(s[0]) {
        idx := [0] + shifted;
        PrependLists(s[0], Select(s[1..], p), s, shifted);
        assert Select(s, p) == [s[0]] + Select(s[1..], p);
        forall i | 0 <= i < |s|
          ensures p(s[i]) <==> i in idx
        {
          if i > 0 {
            assert i in idx <==> i in shifted;
          }
        }
      } else {
        idx := shifted;
        forall i | 0 <= i < |s|
          ensures p(s[i]) <==> i in idx
        {
          if i == 0 {
            assert 0 !in shifted;
          }
        }
      }
    }
  }

  /** Every position moved one place to the right. */
  function Shift(idx: seq<int>): (r: seq<int>)
    ensures |r| == |idx|
    ensures forall k :: 0 <= k < |idx| ==> r[k] == idx[k] + 1
  {
    seq(|idx|, k requires 0 <= k < |idx| => idx[k] + 1)
  }

  lemma ShiftLists<T>(tail: seq<T>, s: seq<T>, rest: seq<int>)
    requires |s| > 0
    requires ListsAt(tail, s[1..], rest)
    ensures ListsAt(tail, s, Shift(rest))
    ensures forall k :: 0 <= k < |rest| ==> 1 <= Shift(rest)[k]
  {
    forall k | 0 <= k < |rest|
      ensures s[1..][rest[k]] == s[rest[k] + 1]
    {
    }
  }

  lemma ShiftIncreasing(rest: seq<int>)
    requires StrictlyIncreasing(rest)
    requires forall k :: 0 <= k < |rest| ==> 0 <= rest[k]
    ensures StrictlyIncreasing(Shift(rest)) && StrictlyIncreasing([0] + Shift(rest))
  {
  }

  lemma PrependLists<T>(x: T, tail: seq<T>, s: seq<T>, idx: seq<int>)
    requires |s| > 0 && s[0] == x
    requires ListsAt(tail, s, idx)
    ensures ListsAt([x] + tail, s, [0] + idx)
  {
  }

  lemma ShiftCovers<T>(s: seq<T>, p: T -> bool, rest: seq<int>)
    requires |s| > 0
    requires Covers(s[1..], p, rest)
    ensures forall i :: 1 <= i < |s| ==> (p(s[i]) <==> i in Shift(rest))
  {
    var shifted := Shift(rest);
    forall i | 1 <= i < |s|
      ensures p(s[i]) <==> i in shifted
    {
      assert s[i] == s[1..][i - 1];
      if i - 1 in rest {
        var k :| 0 <= k < |rest| && rest[k] == i - 1;
        assert shifted[k] == i;
      }
      if i in shifted {
        var k :| 0 <= k < |shifted| && shifted[k] == i;
        assert rest[k] == i - 1;
      }
    }
  }

  /** Selection keeps every copy of a passing element and no copy of a failing one. */
  lemma {:induction false} SelectCounts<T>(s: seq<T>, p: T -> bool, x: T)
    ensures multiset(Select(s, p))[x] == if p(x) then multiset(s)[x] else 0
    decreases |s|
  {
    if |s| > 0 {
      SelectCounts(s[1..], p, x);
      assert s == [s[0]] + s[1..];
      assert multiset(s) == multiset{s[0]} + multiset(s[1..]);
    }
  }

  /** When every element passes, selection returns the whole sequence. */
  lemma {:induction false} SelectAllPass<T>(s: seq<T>, p: T -> bool)
    requires forall i :: 0 <= i < |s| ==> p(s[i])
    ensures Select(s, p) == s
    decreases |s|
  {
    if |s| > 0 {
      SelectAllPass(s[1..], p);
      assert s == [s[0]] + s[1..];
    }
  }

  function Min(a: int, b: int): int { if a <= b then a else b }

  function Max(a: int, b: int): int { if a <= b then b else a }

  /** `Array.prototype.slice(0, end)`: a negative `end` counts back from the
      length, and an `end` past the length stops at the length. */
  function SliceTo<T>(s: seq<T>, end: int): (r: seq<T>)
    ensures r <= s
    ensures 0 <= end ==> |r| == Min(end, |s|)
    ensures end < 0 ==> |r| == Max(0, |s| + end)
  {
    if end < 0 then s[..Max(0, |s| + end)] else s[..Min(end, |s|)]
  }
}
