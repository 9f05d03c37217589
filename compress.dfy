/** `compress` of digraph.py: removes the cycles from a walk by jumping,
    from each vertex kept, past the last time the walk visits it. */
module Compression {
  import opened Walks

  /** The index of the last occurrence of `x` in `s`, or -1 when `x` does
      not occur. */
  function LastIndex<T(==)>(s: seq<T>, x: T): (k: int)
    ensures -1 <= k < |s|
    ensures k >= 0 <==> x in s
    ensures k >= 0 ==> s[k] == x && x !in s[k + 1..]
  {
    if |s| == 0 then -1
    else if s[|s| - 1] == x then |s| - 1
    else
      assert s == s[..|s| - 1] + [s[|s| - 1]];
      LastIndex(s[..|s| - 1], x)
  }

  /** The vertices `compress` keeps from position `i` on: the vertex at `i`,
      then whatever is kept after its last occurrence. */
  function Compressed<T(==)>(walk: seq<T>, i: nat): seq<T>
    decreases |walk| - i
  {
    if i >= |walk| then []
    else [walk[i]] + Compressed(walk, LastIndex(walk, walk[i]) + 1)
  }

  /** `compress(walk)`: records the last index of every vertex, then walks
      the list keeping a vertex and jumping past its last occurrence. */
  method Compress<T(==)>(walk: seq<T>) returns (rv: seq<T>)
    ensures rv == Compressed(walk, 0)
  {
    var lasttime := LastTimes(walk);
    rv := [];
    var i := 0;
    while i < |walk|
      invariant 0 <= i <= |walk|
      invariant rv + Compressed(walk, i) == Compressed(walk, 0)
      decreases |walk| - i
    {
      LastTimeOf(walk, lasttime, i);
      var next := lasttime[walk[i]] + 1;
      KeepAndJump(walk, rv, i, next);
      rv := rv + [walk[i]];
      i := next;
    }
  }

  /** One pass of the second loop keeps its invariant and moves forward. */
  lemma KeepAndJump<T>(walk: seq<T>, rv: seq<T>, i: nat, next: int)
    requires i < |walk| && rv + Compressed(walk, i) == Compressed(walk, 0)
    requires next == LastIndex(walk, walk[i]) + 1
    ensures i < next
    ensures (rv + [walk[i]]) + Compressed(walk, next) == Compressed(walk, 0)
  {
    CompressedStep(walk, i);
    MoveFront(rv, walk[i], Compressed(walk, next), Compressed(walk, i), Compressed(walk, 0));
  }

  /** Moving the head of the unprocessed part to the end of the output. */
  lemma MoveFront<T>(rv: seq<T>, x: T, rest: seq<T>, todo: seq<T>, whole: seq<T>)
    requires rv + todo == whole && todo == [x] + rest
    ensures (rv + [x]) + rest == whole
  {
    assert rv + ([x] + rest) == (rv + [x]) + rest;
  }

  /** `lasttime` maps every vertex of the walk, and nothing else, to the
      index of its last occurrence. */
  ghost predicate LastTimesOf<T>(walk: seq<T>, lasttime: map<T, int>) {
    && (forall k :: 0 <= k < |walk| ==> walk[k] in lasttime)
    && (forall v :: v in lasttime ==> v in walk && lasttime[v] == LastIndex(walk, v))
  }

  /** The first loop of `compress`. */
  method LastTimes<T(==)>(walk: seq<T>) returns (lasttime: map<T, int>)
    ensures LastTimesOf(walk, lasttime)
  {
    lasttime := map[];
    for i := 0 to |walk|
      invariant LastTimesOf(walk[..i], lasttime)
    {
      LastTimesGrow(walk, i, lasttime);
      lasttime := lasttime[walk[i] := i];
    }
    assert walk[..|walk|] == walk;
  }

  lemma LastTimeOf<T>(walk: seq<T>, lasttime: map<T, int>, i: nat)
    requires LastTimesOf(walk, lasttime) && i < |walk|
    ensures walk[i] in lasttime && lasttime[walk[i]] == LastIndex(walk, walk[i])
  {
  }

  /** Recording index `i` for `walk[i]` extends the last-index map from
      the prefix before `i` to the prefix through `i`. */
  lemma LastTimesGrow<T>(walk: seq<T>, i: nat, lasttime: map<T, int>)
    requires i < |walk| && LastTimesOf(walk[..i], lasttime)
    ensures LastTimesOf(walk[..i + 1], lasttime[walk[i] := i])
  {
    LastIndexGrow(walk, i);
    var prefix, lt := walk[..i + 1], lasttime[walk[i] := i];
    forall k | 0 <= k < |prefix| ensures prefix[k] in lt {
      if k < i { assert prefix[k] == walk[..i][k]; }
    }
  }

  /** Extending a prefix by one element: that element's last index is the
      new position, and every other element keeps its last index. */
  lemma LastIndexGrow<T>(walk: seq<T>, i: nat)
    requires i < |walk|
    ensures LastIndex(walk[..i + 1], walk[i]) == i
    ensures forall v :: v != walk[i] ==> LastIndex(walk[..i + 1], v) == LastIndex(walk[..i], v)
    ensures forall v :: v in walk[..i + 1] <==> v in walk[..i] || v == walk[i]
  {
    assert walk[..i + 1][..i] == walk[..i];
    assert walk[..i + 1] == walk[..i] + [walk[i]];
  }

  /** One jump of the second loop: `walk[i]` is kept and the rest is what
      is kept after its last occurrence, which lies at or after `i`. */
  lemma CompressedStep<T>(walk: seq<T>, i: nat)
    requires i < |walk|
    ensures i <= LastIndex(walk, walk[i])
    ensures Compressed(walk, i) == [walk[i]] + Compressed(walk, LastIndex(walk, walk[i]) + 1)
  {
  }

  /** `k` is the last index of `x` when `s[k]` is `x` and no later element
      is. */
  lemma LastIndexIs<T>(s: seq<T>, x: T, k: nat)
    requires k < |s| && s[k] == x && forall j :: k < j < |s| ==> s[j] != x
    ensures LastIndex(s, x) == k
  {
    assert x in s;
  }

  /** Every vertex kept from position `i` on occurs in the walk at or after
      `i`. */
  lemma {:induction false} CompressedFrom<T>(walk: seq<T>, i: nat)
    ensures forall x :: x in Compressed(walk, i) ==> x in walk[i..]
    decreases |walk| - i
  {
    if i < |walk| {
      var next := LastIndex(walk, walk[i]) + 1;
      CompressedFrom(walk, next);
      forall x | x in Compressed(walk, i) ensures x in walk[i..] {
        if x != walk[i] {
          assert x in Compressed(walk, next);
          assert x in walk[next..];
          var j :| next <= j < |walk| && walk[j] == x;
          assert walk[i..][j - i] == x;
        }
      }
    }
  }

  /** No element occurs twice in `s`. */
  ghost predicate NoRepeats<T>(s: seq<T>) {
    forall j, k :: 0 <= j < k < |s| ==> s[j] != s[k]
  }

  /** No vertex is kept twice. */
  lemma {:induction false} CompressedDistinct<T>(walk: seq<T>, i: nat)
    ensures NoRepeats(Compressed(walk, i))
    decreases |walk| - i
  {
    if i < |walk| {
      var next := LastIndex(walk, walk[i]) + 1;
      CompressedDistinct(walk, next);
      CompressedFrom(walk, next);
      var c, rest := Compressed(walk, i), Compressed(walk, next);
      assert c == [walk[i]] + rest;
      forall j, k | 0 <= j < k < |c| ensures c[j] != c[k] {
        if j == 0 {
          assert c[k] == rest[k - 1] && c[k] in rest;
          assert c[k] in walk[next..];
          assert walk[i] !in walk[next..];
          assert c[j] == walk[i];
        } else {
          assert c[j] == rest[j - 1] && c[k] == rest[k - 1];
        }
      }
    }
  }

  /** The result starts where the walk (from `i`) starts and ends where it
      ends. */
  lemma {:induction false} CompressedEnds<T>(walk: seq<T>, i: nat)
    requires i < |walk|
    ensures var c := Compressed(walk, i); |c| > 0 && c[0] == walk[i] && c[|c| - 1] == walk[|walk| - 1]
    decreases |walk| - i
  {
    var next := LastIndex(walk, walk[i]) + 1;
    if next < |walk| {
      CompressedEnds(walk, next);
    }
  }

  /** `a` is immediately followed by `b` somewhere in `walk`. */
  ghost predicate IsStep<T>(walk: seq<T>, a: T, b: T) {
    exists j :: 0 < j < |walk| && walk[j - 1] == a && walk[j] == b
  }

  /** Each consecutive pair of `c` is a consecutive pair of `walk`. */
  ghost predicate StepsOf<T>(walk: seq<T>, c: seq<T>) {
    forall k :: 0 < k < |c| ==> IsStep(walk, c[k - 1], c[k])
  }

  /** Each consecutive pair of the result is a consecutive pair of the
      walk. */
  lemma {:induction false} CompressedSteps<T>(walk: seq<T>, i: nat)
    ensures StepsOf(walk, Compressed(walk, i))
    decreases |walk| - i
  {
    if i < |walk| {
      var last := LastIndex(walk, walk[i]);
      var next := last + 1;
      CompressedSteps(walk, next);
      var c, rest := Compressed(walk, i), Compressed(walk, next);
      forall k | 0 < k < |c| ensures IsStep(walk, c[k - 1], c[k]) {
        if k == 1 {
          CompressedEnds(walk, next);
          assert walk[next - 1] == c[0] && walk[next] == c[1];
        } else {
          assert c[k - 1] == rest[k - 2] && c[k] == rest[k - 1];
        }
      }
    }
  }

  /** Compressing a path from `s` to `d` gives a path from `s` to `d` that
      repeats no vertex. */
  lemma CompressedPath(E: Adjacency, walk: seq<Vertex>, s: Vertex, d: Vertex)
    requires PathFromTo(E, walk, s, d)
    ensures PathFromTo(E, Compressed(walk, 0), s, d)
    ensures NoRepeats(Compressed(walk, 0))
  {
    var c := Compressed(walk, 0);
    CompressedEnds(walk, 0);
    CompressedFrom(walk, 0);
    CompressedSteps(walk, 0);
    CompressedDistinct(walk, 0);
    forall k | 0 < k < |c| ensures HasEdge(E, c[k - 1], c[k]) {
      assert IsStep(walk, c[k - 1], c[k]);
      var j :| 0 < j < |walk| && walk[j - 1] == c[k - 1] && walk[j] == c[k];
    }
    forall k | 0 <= k < |c| ensures c[k] in E {
      assert c[k] in walk[0..];
    }
  }

  /** The two examples documented for `compress`: a walk without repeats
      is kept whole, and both cycles through 1 and 6 are cut out. */
  lemma CompressKeepsPath()
    ensures Compressed([1, 2, 3, 4], 0) == [1, 2, 3, 4]
  {
    var w := [1, 2, 3, 4];
    LastIndexIs(w, 4, 3);
    LastIndexIs(w, 3, 2);
    LastIndexIs(w, 2, 1);
    LastIndexIs(w, 1, 0);
  }

  lemma CompressCutsCycles()
    ensures Compressed([1, 3, 0, 1, 6, 4, 8, 6, 2], 0) == [1, 6, 2]
  {
    var w := [1, 3, 0, 1, 6, 4, 8, 6, 2];
    LastIndexIs(w, 2, 8);
    LastIndexIs(w, 6, 7);
    LastIndexIs(w, 1, 3);
  }
}
