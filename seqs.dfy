/** The JavaScript array operations the application relies on (`findIndex`,
    `find`, `some`, `filter`) and the ordering facts used about them. */
module Seqs {
  import opened Wrappers

  /** Index of the first element satisfying `p` (`Array.prototype.findIndex`). */
  function IndexWhere<T>(s: seq<T>, p: T -> bool): (r: Option<nat>)
    ensures r.Some? ==> r.value < |s| && p(s[r.value])
    ensures r.Some? ==> forall j :: 0 <= j < r.value ==> !p(s[j])
    ensures r.None? ==> forall j :: 0 <= j < |s| ==> !p(s[j])
  {
    if s == [] then None
    else if p(s[0]) then Some(0)
    else match IndexWhere(s[1..], p)
      case None => None
      case Some(i) => Some(i + 1)
  }

  /** The first element satisfying `p` (`Array.prototype.find`). */
  function FindFirst<T>(s: seq<T>, p: T -> bool): (r: Option<T>)
    ensures r.None? <==> forall j :: 0 <= j < |s| ==> !p(s[j])
    ensures r.Some? ==> exists i :: 0 <= i < |s| && s[i] == r.value && p(s[i]) &&
                                    forall j :: 0 <= j < i ==> !p(s[j])
  {
    match IndexWhere(s, p)
    case None => None
    case Some(i) => Some(s[i])
  }

  /** Searching a sequence extended at the end finds an earlier match first. */
  lemma {:induction false} FindFirstAppend<T>(s: seq<T>, x: T, p: T -> bool)
    ensures FindFirst(s + [x], p) ==
            if FindFirst(s, p).Some? then FindFirst(s, p)
            else if p(x) then Some(x) else None
  {
    IndexWhereAppend(s, x, p);
  }

  lemma {:induction false} IndexWhereAppend<T>(s: seq<T>, x: T, p: T -> bool)
    ensures IndexWhere(s + [x], p) ==
            if IndexWhere(s, p).Some? then IndexWhere(s, p)
            else if p(x) then Some(|s|) else None
  {
    if s == [] {
      assert [x][1..] == [];
    } else {
      assert (s + [x])[1..] == s[1..] + [x];
      IndexWhereAppend(s[1..], x, p);
    }
  }

  /** Whether some element satisfies `p` (`Array.prototype.some`). */
  function Any<T>(s: seq<T>, p: T -> bool): (r: bool)
    ensures r <==> exists i :: 0 <= i < |s| && p(s[i])
  {
    if s == [] then false
    else p(s[0]) || Any(s[1..], p)
  }

  /** `some` and `find` agree on whether a match exists. */
  lemma {:induction false} AnyIffFound<T>(s: seq<T>, p: T -> bool)
    ensures Any(s, p) <==> FindFirst(s, p).Some?
  {
    if s != [] && !p(s[0]) {
      AnyIffFound(s[1..], p);
      assert Any(s, p) == Any(s[1..], p);
      assert IndexWhere(s, p).Some? == IndexWhere(s[1..], p).Some?;
    }
  }

  /** The elements satisfying `p`, in their original order (`Array.prototype.filter`). */
  function Filter<T>(s: seq<T>, p: T -> bool): (r: seq<T>)
    ensures |r| <= |s|
    ensures forall x :: x in r ==> x in s && p(x)
    ensures forall x :: x in s && p(x) ==> x in r
  {
    if s == [] then []
    else (if p(s[0]) then [s[0]] else []) + Filter(s[1..], p)
  }

  /** Filtering distributes over concatenation: it keeps relative order. */
  lemma {:induction false} FilterAppend<T>(a: seq<T>, b: seq<T>, p: T -> bool)
    ensures Filter(a + b, p) == Filter(a, p) + Filter(b, p)
  {
    if a == [] {
      assert a + b == b;
    } else {
      assert (a + b)[1..] == a[1..] + b;
      FilterAppend(a[1..], b, p);
    }
  }

  /** Filtering keeps a sequence whose every element passes. */
  lemma {:induction false} FilterAll<T>(s: seq<T>, p: T -> bool)
    requires forall j :: 0 <= j < |s| ==> p(s[j])
    ensures Filter(s, p) == s
  {
    if s != [] {
      FilterAll(s[1..], p);
    }
  }

  /** Filtering empties a sequence whose every element fails. */
  lemma {:induction false} FilterNone<T>(s: seq<T>, p: T -> bool)
    requires forall j :: 0 <= j < |s| ==> !p(s[j])
    ensures Filter(s, p) == []
  {
    if s != [] {
      FilterNone(s[1..], p);
    }
  }

  /** When exactly one position fails `p`, filtering removes exactly that element. */
  lemma FilterRemovesOne<T>(s: seq<T>, p: T -> bool, i: nat)
    requires i < |s| && !p(s[i])
    requires forall j :: 0 <= j < |s| && j != i ==> p(s[j])
    ensures Filter(s, p) == s[..i] + s[i + 1..]
    ensures |Filter(s, p)| == |s| - 1
  {
    var pre, post := s[..i], s[i + 1..];
    assert s == pre + ([s[i]] + post);
    FilterAll(pre, p);
    FilterAll(post, p);
    assert Filter([s[i]], p) == [] by {
      assert [s[i]][1..] == [];
    }
    calc {
      Filter(s, p);
      { FilterAppend(pre, [s[i]] + post, p); }
      Filter(pre, p) + Filter([s[i]] + post, p);
      { FilterAppend([s[i]], post, p); }
      pre + (Filter([s[i]], p) + post);
    }
    assert pre + ([] + post) == pre + post;
  }

  /** `r` occurs in `s` at the strictly increasing positions `f`: `r` is a
      subsequence of `s`, in the same relative order. */
  ghost predicate EmbedsAt<T>(r: seq<T>, s: seq<T>, f: seq<nat>) {
    && |f| == |r|
    && (forall k :: 0 <= k < |f| ==> f[k] < |s| && s[f[k]] == r[k])
    && (forall k, l :: 0 <= k < l < |f| ==> f[k] < f[l])
  }

  /** Every position of `s` whose element satisfies `p` is listed in `f`. */
  ghost predicate Covers<T>(s: seq<T>, p: T -> bool, f: seq<nat>) {
    forall j :: 0 <= j < |s| && p(s[j]) ==> j in f
  }

  /** The positions in `s` of the elements that `Filter` keeps: each kept
      element once, in relative order, and every element satisfying `p`
      among them. */
  function FilterPositions<T>(s: seq<T>, p: T -> bool): (f: seq<nat>)
    ensures EmbedsAt(Filter(s, p), s, f)
    ensures Covers(s, p, f)
  {
    if s == [] then []
    else
      var shifted := Shift(FilterPositions(s[1..], p));
      EmbedsInTail(Filter(s[1..], p), s, FilterPositions(s[1..], p));
      CoversInTail(s, p, FilterPositions(s[1..], p));
      if p(s[0]) then
        EmbedsWithHead(Filter(s[1..], p), s, shifted);
        [0] + shifted
      else shifted
  }

  lemma CoversInTail<T>(s: seq<T>, p: T -> bool, g: seq<nat>)
    requires s != [] && Covers(s[1..], p, g)
    ensures forall j :: 1 <= j < |s| && p(s[j]) ==> j in Shift(g)
  {
    forall j | 1 <= j < |s| && p(s[j]) ensures j in Shift(g) {
      assert s[1..][j - 1] == s[j];
      var k :| 0 <= k < |g| && g[k] == j - 1;
      assert Shift(g)[k] == j;
    }
  }

  /** Every position moved one place on. */
  function Shift(g: seq<nat>): (r: seq<nat>)
    ensures |r| == |g| && forall k :: 0 <= k < |g| ==> r[k] == g[k] + 1
  {
    seq(|g|, k requires 0 <= k < |g| => g[k] + 1)
  }

  lemma EmbedsInTail<T>(r: seq<T>, s: seq<T>, g: seq<nat>)
    requires s != [] && EmbedsAt(r, s[1..], g)
    ensures EmbedsAt(r, s, Shift(g))
  {
    forall k | 0 <= k < |g| ensures Shift(g)[k] < |s| && s[Shift(g)[k]] == r[k] {
      assert s[g[k] + 1] == s[1..][g[k]];
    }
  }

  lemma EmbedsWithHead<T>(r: seq<T>, s: seq<T>, f: seq<nat>)
    requires s != [] && EmbedsAt(r, s, f)
    requires forall k :: 0 <= k < |f| ==> f[k] > 0
    ensures EmbedsAt([s[0]] + r, s, [0] + f)
  {
    var r', f' := [s[0]] + r, [0] + f;
    forall k | 0 <= k < |f'| ensures f'[k] < |s| && s[f'[k]] == r'[k] {
      if k > 0 { assert f'[k] == f[k - 1] && r'[k] == r[k - 1]; }
    }
    forall k, l | 0 <= k < l < |f'| ensures f'[k] < f'[l] {
      if k > 0 { assert f'[k] == f[k - 1] && f'[l] == f[l - 1]; }
      else { assert f'[l] == f[l - 1]; }
    }
  }

  /** `R` holds between every element and every later one. */
  ghost predicate Pairwise<T>(s: seq<T>, R: (T, T) -> bool) {
    forall i, j :: 0 <= i < j < |s| ==> R(s[i], s[j])
  }

  /** Filtering preserves a pairwise relation (a subsequence keeps the order). */
  lemma {:induction false} FilterPairwise<T>(s: seq<T>, p: T -> bool, R: (T, T) -> bool)
    requires Pairwise(s, R)
    ensures Pairwise(Filter(s, p), R)
  {
    if s != [] {
      assert Pairwise(s[1..], R);
      FilterPairwise(s[1..], p, R);
      var tail := Filter(s[1..], p);
      if p(s[0]) {
        var r := [s[0]] + tail;
        forall i, j | 0 <= i < j < |r| ensures R(r[i], r[j]) {
          if i > 0 {
            assert r[i] == tail[i - 1] && r[j] == tail[j - 1];
          } else {
            assert r[j] in tail;
            var k :| 0 <= k < |s[1..]| && s[1..][k] == r[j];
            assert R(s[0], s[k + 1]);
          }
        }
      } else {
        assert Filter(s, p) == tail;
      }
    }
  }

  /** Appending an element related to everything before it preserves a pairwise relation. */
  lemma PairwiseAppend<T>(s: seq<T>, x: T, R: (T, T) -> bool)
    requires Pairwise(s, R)
    requires forall j :: 0 <= j < |s| ==> R(s[j], x)
    ensures Pairwise(s + [x], R)
  {
    var r := s + [x];
    forall i, j | 0 <= i < j < |r| ensures R(r[i], r[j]) {
      if j < |s| {
        assert r[i] == s[i] && r[j] == s[j];
      } else {
        assert r[i] == s[i] && r[j] == x;
      }
    }
  }

  /** Removing one element preserves a pairwise relation. */
  lemma PairwiseRemoveAt<T>(s: seq<T>, k: nat, R: (T, T) -> bool)
    requires Pairwise(s, R) && k < |s|
    ensures Pairwise(s[..k] + s[k + 1..], R)
  {
    var r := s[..k] + s[k + 1..];
    forall i, j | 0 <= i < j < |r| ensures R(r[i], r[j]) {
      var i', j' := if i < k then i else i + 1, if j < k then j else j + 1;
      assert r[i] == s[i'] && r[j] == s[j'];
    }
  }

  /** The sequence read back to front. */
  function Reverse<T>(s: seq<T>): (r: seq<T>)
    ensures |r| == |s|
    ensures forall i :: 0 <= i < |s| ==> r[i] == s[|s| - 1 - i]
  {
    if s == [] then [] else Reverse(s[1..]) + [s[0]]
  }

  /** Reversal is a permutation. */
  lemma {:induction false} ReverseMultiset<T>(s: seq<T>)
    ensures multiset(Reverse(s)) == multiset(s)
  {
    if s != [] {
      ReverseMultiset(s[1..]);
      assert s == [s[0]] + s[1..];
    }
  }
}
