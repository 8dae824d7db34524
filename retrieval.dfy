/** Retrieval for one query: score every stored chunk, argsort the scores, keep the last
    four indices in reverse (best first), join their texts and collect their labels. */
module Retrieval {
  import opened Common

  /** How many chunks feed the context. */
  const TopK := 4

  /** The separator between context blocks. */
  const Separator := "\n\n"

  // ---------------------------------------------------------------- scoring

  /** The similarity of the query with every stored chunk, in index order. */
  function Scores(query: Vector, index: seq<Chunk>, sim: (Vector, Vector) -> real): (scores: seq<real>)
    requires Embedded(index)
    ensures |scores| == |index|
  {
    seq(|index|, i requires 0 <= i < |index| => sim(query, index[i].vector.value))
  }

  /** The similarity loop: one score appended per stored chunk. */
  method ScoreAll(query: Vector, index: seq<Chunk>, sim: (Vector, Vector) -> real) returns (scores: seq<real>)
    requires Embedded(index)
    ensures |scores| == |index|
    ensures forall i :: 0 <= i < |index| ==> scores[i] == sim(query, index[i].vector.value)
    ensures scores == Scores(query, index, sim)
  {
    scores := [];
    for i := 0 to |index|
      invariant |scores| == i
      invariant forall j :: 0 <= j < i ==> scores[j] == sim(query, index[j].vector.value)
    {
      scores := scores + [sim(query, index[i].vector.value)];
    }
  }

  // ---------------------------------------------------------------- argsort

  /** Every entry of `order` is an index below `n`. */
  ghost predicate InRange(order: seq<nat>, n: nat)
  {
    forall i :: 0 <= i < |order| ==> order[i] < n
  }

  ghost predicate Distinct(order: seq<nat>)
  {
    forall i, j :: 0 <= i < j < |order| ==> order[i] != order[j]
  }

  /** `order` lists each of 0 .. n-1 exactly once. */
  ghost predicate IsPermutation(order: seq<nat>, n: nat)
  {
    |order| == n && InRange(order, n) && Distinct(order) && forall k :: 0 <= k < n ==> k in order
  }

  /** Scores read along `order` never decrease. */
  ghost predicate Ascending(scores: seq<real>, order: seq<nat>)
  {
    InRange(order, |scores|) &&
    forall i, j :: 0 <= i < j < |order| ==> scores[order[i]] <= scores[order[j]]
  }

  /** Each score read along `order` is at least the one before it. */
  ghost predicate StepwiseAscending(scores: seq<real>, order: seq<nat>)
  {
    InRange(order, |scores|) &&
    forall i :: 0 < i < |order| ==> scores[order[i - 1]] <= scores[order[i]]
  }

  lemma {:induction false} StepwiseIsAscending(scores: seq<real>, order: seq<nat>)
    requires StepwiseAscending(scores, order)
    ensures Ascending(scores, order)
  {
    if |order| > 1 {
      var init := order[..|order| - 1];
      StepwiseIsAscending(scores, init);
      forall i, j | 0 <= i < j < |order|
        ensures scores[order[i]] <= scores[order[j]]
      {
        if j < |order| - 1 {
          assert init[i] == order[i] && init[j] == order[j];
        } else if i < j - 1 {
          assert init[i] == order[i] && init[j - 1] == order[j - 1];
        }
      }
    }
  }

  /** What np.argsort may return: a permutation of the indices that sorts the scores in
      ascending order. The sort is not stable, so among equal scores any order is allowed. */
  ghost predicate IsArgsort(scores: seq<real>, order: seq<nat>)
  {
    IsPermutation(order, |scores|) && Ascending(scores, order)
  }

  /** Inserts index `x` into the ascending `sorted`, after every index of no larger score. */
  function Insert(scores: seq<real>, x: nat, sorted: seq<nat>): (r: seq<nat>)
    requires x < |scores| && StepwiseAscending(scores, sorted)
    ensures |r| == |sorted| + 1
    ensures multiset(r) == multiset(sorted) + multiset{x}
    ensures r[0] == x || (sorted != [] && r[0] == sorted[0])
    ensures StepwiseAscending(scores, r)
  {
    if sorted == [] then [x]
    else if scores[x] < scores[sorted[0]] then [x] + sorted
    else
      var rest := Insert(scores, x, sorted[1..]);
      assert sorted == [sorted[0]] + sorted[1..];
      [sorted[0]] + rest
  }

  /** The multiset holding each of 0 .. n-1 once. */
  ghost function Indices(n: nat): multiset<nat>
  {
    if n == 0 then multiset{} else Indices(n - 1) + multiset{n - 1}
  }

  lemma {:induction false} IndicesCount(n: nat, y: nat)
    ensures Indices(n)[y] == if y < n then 1 else 0
  {
    if n > 0 {
      IndicesCount(n - 1, y);
    }
  }

  lemma {:induction false} IndicesSize(n: nat)
    ensures |Indices(n)| == n
  {
    if n > 0 {
      IndicesSize(n - 1);
    }
  }

  lemma NoRepeat(order: seq<nat>, n: nat, i: nat, j: nat)
    requires multiset(order) == Indices(n)
    requires i < j < |order|
    ensures order[i] != order[j]
  {
    var rest := order[..i] + order[i + 1..];
    assert order == order[..i] + [order[i]] + order[i + 1..];
    assert multiset(order) == multiset(rest) + multiset{order[i]};
    assert rest[j - 1] == order[j];
    assert order[j] in multiset(rest);
    IndicesCount(n, order[j]);
  }

  /** A sequence with the multiset of 0 .. n-1 is a permutation of 0 .. n-1. */
  lemma PermutationOfIndices(order: seq<nat>, n: nat)
    requires multiset(order) == Indices(n)
    ensures IsPermutation(order, n)
  {
    assert |order| == |multiset(order)|;
    IndicesSize(n);
    forall i | 0 <= i < |order|
      ensures order[i] < n
    {
      assert order[i] in multiset(order);
      IndicesCount(n, order[i]);
    }
    forall k | 0 <= k < n
      ensures k in order
    {
      IndicesCount(n, k);
      assert k in multiset(order);
    }
    forall i, j | 0 <= i < j < |order|
      ensures order[i] != order[j]
    {
      NoRepeat(order, n, i, j);
    }
  }

  /** A stable insertion argsort of the first `n` scores. */
  function ArgSortPrefix(scores: seq<real>, n: nat): (order: seq<nat>)
    requires n <= |scores|
    ensures StepwiseAscending(scores, order)
    ensures multiset(order) == Indices(n)
  {
    if n == 0 then []
    else Insert(scores, n - 1, ArgSortPrefix(scores, n - 1))
  }

  /** One concrete argsort; every lemma below holds for any order IsArgsort admits. */
  function ArgSort(scores: seq<real>): (order: seq<nat>)
    ensures IsArgsort(scores, order)
  {
    var order := ArgSortPrefix(scores, |scores|);
    StepwiseIsAscending(scores, order);
    PermutationOfIndices(order, |scores|);
    order
  }

  // ---------------------------------------------------------------- top-k

  /** Python's s[-k:]: the last k entries, or all of them when there are fewer. */
  function LastK(s: seq<nat>, k: nat): seq<nat>
  {
    if |s| < k then s else s[|s| - k..]
  }

  /** Python's s[::-1]. */
  function Reverse(s: seq<nat>): seq<nat>
  {
    seq(|s|, i requires 0 <= i < |s| => s[|s| - 1 - i])
  }

  /** np.argsort(similarities)[-4:][::-1]: the indices of the four best scores, best first. */
  function TopIndices(order: seq<nat>): (top: seq<nat>)
    ensures |top| == if |order| < TopK then |order| else TopK
  {
    Reverse(LastK(order, TopK))
  }

  lemma TopIsTail(order: seq<nat>, r: nat)
    requires r < |TopIndices(order)|
    ensures TopIndices(order)[r] == order[|order| - 1 - r]
  {
  }

  /** The selection returns min(4, N) distinct valid indices, best score first. */
  lemma TopIndicesShape(scores: seq<real>, order: seq<nat>)
    requires IsArgsort(scores, order)
    ensures var top := TopIndices(order);
      && |top| == (if |scores| < TopK then |scores| else TopK)
      && InRange(top, |scores|)
      && Distinct(top)
      && (forall r, q :: 0 <= r < q < |top| ==> scores[top[r]] >= scores[top[q]])
  {
    var top, n := TopIndices(order), |scores|;
    var k := |top|;
    forall r | 0 <= r < k
      ensures top[r] < n
    {
      TopIsTail(order, r);
    }
    forall r, q | 0 <= r < q < k
      ensures top[r] != top[q] && scores[top[r]] >= scores[top[q]]
    {
      TopIsTail(order, r);
      TopIsTail(order, q);
      assert order[n - 1 - q] != order[n - 1 - r];
      assert scores[order[n - 1 - q]] <= scores[order[n - 1 - r]];
    }
  }

  lemma TailSelected(order: seq<nat>, p: nat)
    requires |order| - |TopIndices(order)| <= p < |order|
    ensures order[p] in TopIndices(order)
  {
    var r := |order| - 1 - p;
    TopIsTail(order, r);
    assert TopIndices(order)[r] == order[p];
  }

  lemma UnselectedBelow(scores: seq<real>, order: seq<nat>, j: nat, r: nat)
    requires IsArgsort(scores, order)
    requires j < |scores| && j !in TopIndices(order) && r < |TopIndices(order)|
    ensures scores[j] <= scores[TopIndices(order)[r]]
  {
    var n, k := |scores|, |TopIndices(order)|;
    assert j in order;
    var p :| 0 <= p < n && order[p] == j;
    if p >= n - k {
      TailSelected(order, p);
      assert false;
    }
    TopIsTail(order, r);
    assert p < n - 1 - r;
    assert Ascending(scores, order);
  }

  /** No chunk left out of the selection scores above any selected chunk. */
  lemma TopIndicesBeatRest(scores: seq<real>, order: seq<nat>)
    requires IsArgsort(scores, order)
    ensures var top := TopIndices(order);
      forall j, r :: 0 <= j < |scores| && j !in top && 0 <= r < |top| ==> scores[j] <= scores[top[r]]
  {
    var top := TopIndices(order);
    forall j, r | 0 <= j < |scores| && j !in top && 0 <= r < |top|
      ensures scores[j] <= scores[top[r]]
    {
      UnselectedBelow(scores, order, j, r);
    }
  }

  // ---------------------------------------------------------------- context

  /** Python's sep.join(parts). */
  function Join(parts: seq<string>, sep: string): string
  {
    if parts == [] then ""
    else if |parts| == 1 then parts[0]
    else Join(parts[..|parts| - 1], sep) + sep + parts[|parts| - 1]
  }

  /** Where the r-th part starts in the joined string. */
  function Offset(parts: seq<string>, sep: string, r: nat): nat
    requires r <= |parts|
  {
    if r == 0 then 0 else Offset(parts, sep, r - 1) + |parts[r - 1]| + |sep|
  }

  lemma {:induction false} OffsetPrefix(parts: seq<string>, sep: string, m: nat, r: nat)
    requires r <= m <= |parts|
    ensures Offset(parts[..m], sep, r) == Offset(parts, sep, r)
  {
    if r > 0 {
      OffsetPrefix(parts, sep, m, r - 1);
    }
  }

  /** The r-th part sits at its offset in `joined`. */
  ghost predicate PartAt(joined: string, parts: seq<string>, sep: string, r: nat)
    requires r < |parts|
  {
    Offset(parts, sep, r) + |parts[r]| <= |joined| &&
    joined[Offset(parts, sep, r)..Offset(parts, sep, r) + |parts[r]|] == parts[r]
  }

  /** The separator sits between the r-th part and the next one in `joined`. */
  ghost predicate SeparatorAfter(joined: string, parts: seq<string>, sep: string, r: nat)
    requires r + 1 < |parts|
  {
    Offset(parts, sep, r + 1) <= |joined| &&
    joined[Offset(parts, sep, r) + |parts[r]|..Offset(parts, sep, r + 1)] == sep
  }

  /** The joined string is one separator shorter than the parts with a separator each. */
  lemma {:induction false} JoinLength(parts: seq<string>, sep: string)
    requires parts != []
    ensures |Join(parts, sep)| + |sep| == Offset(parts, sep, |parts|)
  {
    var n := |parts|;
    if n > 1 {
      JoinLength(parts[..n - 1], sep);
      OffsetPrefix(parts, sep, n - 1, n - 1);
    }
  }

  /** Every part of a join stands at its offset, in order. */
  lemma {:induction false} JoinParts(parts: seq<string>, sep: string)
    ensures forall r :: 0 <= r < |parts| ==> PartAt(Join(parts, sep), parts, sep, r)
  {
    var n := |parts|;
    if n == 1 {
      assert PartAt(Join(parts, sep), parts, sep, 0);
    } else if n > 1 {
      var init := parts[..n - 1];
      var j := Join(init, sep);
      var whole := Join(parts, sep);
      JoinParts(init, sep);
      JoinLength(init, sep);
      OffsetPrefix(parts, sep, n - 1, n - 1);
      assert whole == j + sep + parts[n - 1];
      forall r | 0 <= r < n
        ensures PartAt(whole, parts, sep, r)
      {
        if r < n - 1 {
          OffsetPrefix(parts, sep, n - 1, r);
          assert PartAt(j, init, sep, r);
          assert init[r] == parts[r];
          assert whole[..|j|] == j;
        }
      }
    }
  }

  /** Between two consecutive parts of a join stands exactly one separator. */
  lemma {:induction false} JoinSeparators(parts: seq<string>, sep: string)
    ensures forall r :: 0 <= r && r + 1 < |parts| ==> SeparatorAfter(Join(parts, sep), parts, sep, r)
  {
    var n := |parts|;
    if n > 1 {
      var init := parts[..n - 1];
      var j := Join(init, sep);
      var whole := Join(parts, sep);
      JoinSeparators(init, sep);
      JoinLength(init, sep);
      assert whole == j + sep + parts[n - 1];
      forall r | 0 <= r && r + 1 < n
        ensures SeparatorAfter(whole, parts, sep, r)
      {
        OffsetPrefix(parts, sep, n - 1, r);
        OffsetPrefix(parts, sep, n - 1, r + 1);
        assert init[r] == parts[r];
        var a, b := Offset(parts, sep, r) + |parts[r]|, Offset(parts, sep, r + 1);
        if r + 1 < n - 1 {
          assert SeparatorAfter(j, init, sep, r);
          assert whole[a..b] == j[a..b];
        } else {
          assert a == |j| && b == |j| + |sep|;
          assert whole[a..b] == sep;
        }
      }
    }
  }

  /** The texts of the selected chunks, in rank order. */
  function Texts(index: seq<Chunk>, top: seq<nat>): (texts: seq<string>)
    requires forall r :: 0 <= r < |top| ==> top[r] < |index|
  {
    seq(|top|, r requires 0 <= r < |top| => index[top[r]].text)
  }

  /** The context block: the selected texts joined by a blank line, best first. */
  function Context(index: seq<Chunk>, top: seq<nat>): string
    requires forall r :: 0 <= r < |top| ==> top[r] < |index|
  {
    Join(Texts(index, top), Separator)
  }

  /** The source labels of the selected chunks, index-aligned with the selection. */
  function Sources(index: seq<Chunk>, top: seq<nat>): (sources: seq<string>)
    requires forall r :: 0 <= r < |top| ==> top[r] < |index|
  {
    seq(|top|, r requires 0 <= r < |top| => index[top[r]].source)
  }

  /** set(sources): the labels shown under the answer. */
  function Shown(sources: seq<string>): set<string>
  {
    set s | s in sources
  }

  lemma {:induction false} ShownBound(sources: seq<string>)
    ensures |Shown(sources)| <= |sources|
  {
    if sources != [] {
      var n := |sources| - 1;
      ShownBound(sources[..n]);
      assert Shown(sources) == Shown(sources[..n]) + {sources[n]} by {
        forall s | s in sources ensures s in sources[..n] || s == sources[n] {
          var i :| 0 <= i < |sources| && sources[i] == s;
          if i < n { assert sources[..n][i] == s; }
        }
      }
    }
  }

  /** The context holds the r-th selected chunk's text as its r-th block, consecutive blocks
      separated by a blank line. */
  lemma ContextLayout(index: seq<Chunk>, top: seq<nat>)
    requires forall r :: 0 <= r < |top| ==> top[r] < |index|
    ensures forall r :: 0 <= r < |top| ==> PartAt(Context(index, top), Texts(index, top), Separator, r)
    ensures forall r :: 0 <= r && r + 1 < |top| ==> SeparatorAfter(Context(index, top), Texts(index, top), Separator, r)
    ensures forall r :: 0 <= r < |top| ==> Texts(index, top)[r] == index[top[r]].text
  {
    JoinParts(Texts(index, top), Separator);
    JoinSeparators(Texts(index, top), Separator);
  }

  /** The shown labels are exactly the labels of the selected chunks, at most one per
      selected chunk. */
  lemma ShownSources(index: seq<Chunk>, top: seq<nat>)
    requires forall r :: 0 <= r < |top| ==> top[r] < |index|
    ensures forall s :: s in Shown(Sources(index, top)) <==> exists r :: 0 <= r < |top| && index[top[r]].source == s
    ensures |Shown(Sources(index, top))| <= |top|
  {
    var sources := Sources(index, top);
    ShownBound(sources);
    forall s | s in Shown(sources)
      ensures exists r :: 0 <= r < |top| && index[top[r]].source == s
    {
      var r :| 0 <= r < |sources| && sources[r] == s;
    }
    forall s | exists r :: 0 <= r < |top| && index[top[r]].source == s
      ensures s in Shown(sources)
    {
      var r :| 0 <= r < |top| && index[top[r]].source == s;
      assert sources[r] == s;
    }
  }
}
