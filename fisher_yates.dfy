/**
 * ShuffleList of QuestionManager: the in-place Fisher-Yates shuffle.
 *
 * Unity's Random.Range is replaced by an oracle: `picks[i]` is the value the
 * call Random.Range(i, Count) returned at step `i`, so it lies in [i, Count).
 */
module FisherYates {

  /** `picks` is a possible sequence of draws for a list of `n` elements. */
  predicate ValidPicks(picks: seq<int>, n: nat)
  {
    |picks| == n && forall k :: 0 <= k < n ==> k <= picks[k] < n
  }

  /** `s` with the elements at `i` and `j` exchanged through a temporary:
      the same elements, rearranged. */
  function Swap<T>(s: seq<T>, i: nat, j: nat): (r: seq<T>)
    requires i < |s| && j < |s|
    ensures |r| == |s|
    ensures multiset(r) == multiset(s)
  {
    s[i := s[j]][j := s[i]]
  }

  /** What the loop of ShuffleList leaves when it starts at step `i` on `s`:
      the same elements, rearranged. */
  function ShuffleFrom<T>(s: seq<T>, picks: seq<int>, i: nat): (r: seq<T>)
    requires ValidPicks(picks, |s|)
    ensures |r| == |s|
    ensures multiset(r) == multiset(s)
    decreases |s| - i
  {
    if i >= |s| then s else ShuffleFrom(Swap(s, i, picks[i]), picks, i + 1)
  }

  /** The list ShuffleList produces from `s` under the draws `picks`: every
      result of the shuffle is a permutation of its input. */
  function Shuffled<T>(s: seq<T>, picks: seq<int>): (r: seq<T>)
    requires ValidPicks(picks, |s|)
    ensures |r| == |s|
    ensures multiset(r) == multiset(s)
  {
    ShuffleFrom(s, picks, 0)
  }

  /** Exchanging position `i` with a later position `j` puts `s[j]` at `i`
      and leaves the other elements of the suffix from `i` behind it. */
  lemma SwapSuffix<T>(s: seq<T>, i: nat, j: nat)
    requires i <= j < |s|
    ensures multiset(Swap(s, i, j)[i + 1..]) == multiset(s[i..]) - multiset{s[j]}
  {
    var r := Swap(s, i, j);
    assert r[i..] == Swap(s[i..], 0, j - i);
    assert r[i..] == [r[i]] + r[i + 1..];
  }

  /** One step towards a target arrangement `t`: when `s` and `t` agree
      before `i` and hold the same elements from `i` on, some draw `j` in
      [i, |s|) makes them agree up to `i` inclusive. */
  lemma ReachStep<T>(s: seq<T>, t: seq<T>, i: nat) returns (j: nat)
    requires |s| == |t| && i < |s|
    requires forall k :: 0 <= k < i ==> s[k] == t[k]
    requires multiset(s[i..]) == multiset(t[i..])
    ensures i <= j < |s|
    ensures forall k :: 0 <= k < i + 1 ==> Swap(s, i, j)[k] == t[k]
    ensures multiset(Swap(s, i, j)[i + 1..]) == multiset(t[i + 1..])
  {
    assert t[i] in multiset(s[i..]) by {
      assert t[i..][0] == t[i];
    }
    j :| i <= j < |s| && s[j] == t[i] by {
      var k :| 0 <= k < |s[i..]| && s[i..][k] == t[i];
      assert s[i + k] == t[i];
    }
    SwapSuffix(s, i, j);
    assert t[i..] == [t[i]] + t[i + 1..];
  }

  /** Conversely, every arrangement `t` of the suffix of `s` from `i` on is
      reached from step `i` by some draws, which agree with `picks` before `i`. */
  lemma {:induction false} ReachFrom<T>(s: seq<T>, t: seq<T>, i: nat, picks: seq<int>) returns (picks': seq<int>)
    requires |s| == |t| && i <= |s|
    requires forall k :: 0 <= k < i ==> s[k] == t[k]
    requires multiset(s[i..]) == multiset(t[i..])
    requires ValidPicks(picks, |s|)
    ensures ValidPicks(picks', |s|)
    ensures forall k :: 0 <= k < i ==> picks'[k] == picks[k]
    ensures ShuffleFrom(s, picks', i) == t
    decreases |s| - i
  {
    if i == |s| {
      assert s == t;
      picks' := picks;
    } else {
      var j := ReachStep(s, t, i);
      picks' := ReachFrom(Swap(s, i, j), t, i + 1, picks[i := j]);
      assert picks'[i] == j;
    }
  }

  /** Every permutation of the input is a possible result of the shuffle:
      no arrangement is out of reach of the draws. */
  lemma ShuffleComplete<T>(s: seq<T>, t: seq<T>)
    requires multiset(s) == multiset(t)
    ensures exists picks :: ValidPicks(picks, |s|) && Shuffled(s, picks) == t
  {
    assert |s| == |multiset(s)| == |multiset(t)| == |t|;
    assert s[0..] == s && t[0..] == t;
    var picks := ReachFrom(s, t, 0, seq(|s|, k => k));
    assert ValidPicks(picks, |s|) && Shuffled(s, picks) == t;
  }

  /** ShuffleList: for every position `i`, exchange it with the drawn
      position `picks[i]`, which lies in [i, Count). */
  method ShuffleList<T>(list: array<T>, picks: seq<int>)
    requires ValidPicks(picks, list.Length)
    modifies list
    ensures list[..] == Shuffled(old(list[..]), picks)
    ensures multiset(list[..]) == multiset(old(list[..]))
  {
    for i := 0 to list.Length
      invariant ShuffleFrom(list[..], picks, i) == Shuffled(old(list[..]), picks)
    {
      ghost var before := list[..];
      var temp := list[i];
      var randomIndex := picks[i];
      list[i] := list[randomIndex];
      list[randomIndex] := temp;
      assert list[..] == Swap(before, i, randomIndex);
    }
  }
}
