/** Lists without repetition, what permuting them keeps, and choosing the best by score. */
module Lists {

  lemma {:induction false} DistinctSize<T>(s: seq<T>, all: set<T>)
    requires forall i, j :: 0 <= i < j < |s| ==> s[i] != s[j]
    requires (set v | v in s) == all
    ensures |s| == |all|
  {
    if s != [] {
      var k := |s| - 1;
      assert s == s[..k] + [s[k]];
      assert (set v | v in s[..k]) == all - {s[k]};
      DistinctSize(s[..k], all - {s[k]});
    } else {
      assert all == {};
    }
  }

  lemma SubsetSize<T>(a: set<T>, b: set<T>)
    requires a <= b
    ensures |a| <= |b| && (a != b ==> |a| < |b|)
  {
    assert b == a + (b - a);
  }

  lemma PermutationDistinct<T>(s: seq<T>, t: seq<T>)
    requires multiset(s) == multiset(t)
    requires forall i, j :: 0 <= i < j < |s| ==> s[i] != s[j]
    ensures |s| == |t| && forall i, j :: 0 <= i < j < |t| ==> t[i] != t[j]
  {
    assert |multiset(s)| == |s| && |multiset(t)| == |t|;
    AtMostOnce(s);
    forall i, j | 0 <= i < j < |t| ensures t[i] != t[j] {
      TwiceCounted(t, i, j);
    }
  }

  lemma TwiceCounted<T>(t: seq<T>, i: nat, j: nat)
    requires i < j < |t|
    ensures t[i] == t[j] ==> multiset(t)[t[i]] >= 2
  {
    assert t == t[..j] + [t[j]] + t[j + 1..];
    assert t[i] in t[..j];
  }

  lemma {:induction false} AtMostOnce<T>(s: seq<T>)
    requires forall i, j :: 0 <= i < j < |s| ==> s[i] != s[j]
    ensures forall x :: multiset(s)[x] <= 1
  {
    if s != [] {
      var k := |s| - 1;
      AtMostOnce(s[..k]);
      assert s == s[..k] + [s[k]];
      assert s[k] !in multiset(s[..k]);
    }
  }

  lemma SubDistinct<T>(s: seq<T>, t: seq<T>)
    requires multiset(s) <= multiset(t) && Distinct(t)
    ensures Distinct(s)
  {
    AtMostOnce(t);
    forall i, j | 0 <= i < j < |s| ensures s[i] != s[j] {
      TwiceCounted(s, i, j);
    }
  }

  ghost function Elements<T>(s: seq<T>): set<T> {
    set x | x in s
  }

  function Min(a: nat, b: nat): nat {
    if a < b then a else b
  }

  ghost predicate Distinct<T>(s: seq<T>) {
    forall i, j :: 0 <= i < j < |s| ==> s[i] != s[j]
  }

  ghost predicate Descending<T>(s: seq<T>, score: map<T, real>) {
    && (forall v :: v in s ==> v in score)
    && forall i, j :: 0 <= i < j < |s| ==> score[s[i]] >= score[s[j]]
  }

  /** `list` holds the best of all that are scored: distinct members, as many as there are or
      the limit allows, best first, and nothing left out scores above anything taken. */
  ghost predicate BestOf<T>(list: seq<T>, limit: nat, score: map<T, real>) {
    && Distinct(list) && |list| == Min(|score.Keys|, limit)
    && Descending(list, score)
    && forall v, u :: v in list && u in score && u !in list ==> score[v] >= score[u]
  }

  lemma PrefixIsBest<T>(sorted: seq<T>, limit: nat, score: map<T, real>)
    requires Descending(sorted, score) && Distinct(sorted)
    requires (set v | v in sorted) == score.Keys
    ensures BestOf(sorted[..Min(|sorted|, limit)], limit, score)
  {
    var n := Min(|sorted|, limit);
    DistinctSize(sorted, score.Keys);
    assert forall k :: 0 <= k < n ==> sorted[k] == sorted[..n][k];
    forall v, u | v in sorted[..n] && u in score && u !in sorted[..n] ensures score[v] >= score[u] {
      var i :| 0 <= i < n && sorted[i] == v;
      var j :| 0 <= j < |sorted| && sorted[j] == u;
    }
  }

  function Inserted<T>(s: seq<T>, k: nat, v: T): (t: seq<T>)
    requires k <= |s|
    ensures |t| == |s| + 1
    ensures forall i :: 0 <= i < |t| ==> t[i] == if i < k then s[i] else if i == k then v else s[i - 1]
  {
    s[..k] + [v] + s[k..]
  }

  lemma InsertedMultiset<T>(s: seq<T>, k: nat, v: T)
    requires k <= |s|
    ensures multiset(Inserted(s, k, v)) == multiset(s) + multiset{v}
  {
    assert s == s[..k] + s[k..];
  }

  lemma InsertKeeps<T>(s: seq<T>, k: nat, v: T, score: map<T, real>)
    requires Descending(s, score) && k <= |s| && v in score
    requires forall j :: 0 <= j < k ==> score[s[j]] >= score[v]
    requires k < |s| ==> score[v] >= score[s[k]]
    ensures Descending(Inserted(s, k, v), score)
  {
    var t := Inserted(s, k, v);
    forall i, j | 0 <= i < j < |t| ensures score[t[i]] >= score[t[j]] {
    }
  }
}
