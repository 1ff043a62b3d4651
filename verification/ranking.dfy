/** The ranking half of `on_search`: score every row, keep those at or above the threshold,
    stable-sort them by descending score and keep the first few. */
module Ranking {
  import opened Text
  import opened Store
  import opened Fuzzy

  /** FUZZY_THRESHOLD: the lowest score a row may have and still be shown. */
  const Threshold: real := 60.0

  /** MAX_RESULTS: how many cards a search shows at most. */
  const MaxResults := 2

  /** A row together with its score, the `(s, cid, tags, desc, cmd)` tuple of the scoring loop. */
  datatype Hit = Hit(score: real, row: Command)

  function Score(m: Matcher, query: string, row: Command): real {
    FuzzyScore(m, query, row.tags, row.desc, row.cmd)
  }

  function Min(a: int, b: int): int {
    if a <= b then a else b
  }

  /** The scoring loop: every row that reaches the threshold, with its score, in storage order. */
  function Hits(m: Matcher, query: string, rows: seq<Command>): (r: seq<Hit>)
    ensures |r| <= |rows|
  {
    if rows == [] then []
    else
      var s := Score(m, query, rows[0]);
      (if s >= Threshold then [Hit(s, rows[0])] else []) + Hits(m, query, rows[1..])
  }

  /** A hit is produced exactly for a row that reaches the threshold, carrying its score. */
  lemma {:induction false} HitsMembers(m: Matcher, query: string, rows: seq<Command>, h: Hit)
    ensures h in Hits(m, query, rows) <==> h.row in rows && h.score == Score(m, query, h.row) && h.score >= Threshold
  {
    if rows != [] {
      HitsMembers(m, query, rows[1..], h);
      assert rows == [rows[0]] + rows[1..];
    }
  }

  /** Every entry of the sorted hits is a stored row, with its score, at or above the threshold. */
  lemma {:induction false} SortedHitsSound(m: Matcher, query: string, rows: seq<Command>)
    ensures forall h :: h in SortByScore(Hits(m, query, rows)) ==>
              h.row in rows && h.score == Score(m, query, h.row) && h.score >= Threshold
  {
    forall h | h in SortByScore(Hits(m, query, rows))
      ensures h.row in rows && h.score == Score(m, query, h.row) && h.score >= Threshold
    {
      assert h in multiset(SortByScore(Hits(m, query, rows)));
      HitsMembers(m, query, rows, h);
    }
  }

  predicate HitIdsAscending(s: seq<Hit>) {
    forall i, j :: 0 <= i < j < |s| ==> s[i].row.id < s[j].row.id
  }

  /** Filtering keeps storage order: ascending ids in, ascending ids out. */
  lemma {:induction false} HitsAscending(m: Matcher, query: string, rows: seq<Command>)
    requires AscendingIds(rows)
    ensures HitIdsAscending(Hits(m, query, rows))
  {
    if rows != [] {
      var rest := Hits(m, query, rows[1..]);
      HitsAscending(m, query, rows[1..]);
      var s := Score(m, query, rows[0]);
      if s >= Threshold {
        var r := [Hit(s, rows[0])] + rest;
        forall i, j | 0 <= i < j < |r| ensures r[i].row.id < r[j].row.id {
          assert r[j] == rest[j - 1];
          if i == 0 {
            HitsMembers(m, query, rows[1..], rest[j - 1]);
            var k :| 0 <= k < |rows[1..]| && rows[1..][k] == rest[j - 1].row;
            assert rows[k + 1] == rest[j - 1].row;
          } else {
            assert r[i] == rest[i - 1];
          }
        }
      }
    }
  }

  predicate NonIncreasing(s: seq<Hit>) {
    forall i, j :: 0 <= i < j < |s| ==> s[i].score >= s[j].score
  }

  /** The hits of `s` scoring exactly `k`, in their order in `s`. A sort is stable when
      it leaves every one of these subsequences as it was. */
  function WithScore(s: seq<Hit>, k: real): seq<Hit> {
    if s == [] then [] else (if s[0].score == k then [s[0]] else []) + WithScore(s[1..], k)
  }

  /** WithScore keeps exactly the entries of score `k`. */
  lemma {:induction false} WithScoreMembers(s: seq<Hit>, k: real, h: Hit)
    ensures h in WithScore(s, k) <==> h in s && h.score == k
  {
    if s != [] {
      WithScoreMembers(s[1..], k, h);
      assert s == [s[0]] + s[1..];
    }
  }

  lemma {:induction false} WithScoreCons(h: Hit, s: seq<Hit>, k: real)
    ensures WithScore([h] + s, k) == (if h.score == k then [h] else []) + WithScore(s, k)
  {
    assert ([h] + s)[1..] == s;
  }

  /** Insert `h` in front of the first entry that does not outscore it. */
  function Place(h: Hit, s: seq<Hit>): (r: seq<Hit>)
    ensures multiset(r) == multiset(s) + multiset{h}
  {
    if s == [] || s[0].score <= h.score then [h] + s
    else
      assert s == [s[0]] + s[1..];
      [s[0]] + Place(h, s[1..])
  }

  /** `h` goes in front of every entry of its own score. `h` is the earlier input element,
      so equal scores keep their input order. */
  lemma {:induction false} PlaceWithScore(h: Hit, s: seq<Hit>, k: real)
    ensures WithScore(Place(h, s), k) == (if h.score == k then [h] else []) + WithScore(s, k)
  {
    if s == [] || s[0].score <= h.score {
      WithScoreCons(h, s, k);
    } else {
      var t := Place(h, s[1..]);
      assert Place(h, s) == [s[0]] + t;
      PlaceWithScore(h, s[1..], k);
      WithScoreCons(s[0], t, k);
      assert s == [s[0]] + s[1..];
      WithScoreCons(s[0], s[1..], k);
      var rest := WithScore(s[1..], k);
      if h.score == k {
        // s[0] outscores h, so it is not of score k and contributes nothing
        assert WithScore(Place(h, s), k) == [h] + rest;
        assert WithScore(s, k) == rest;
      } else {
        assert WithScore(t, k) == rest;
      }
    }
  }

  lemma {:induction false} PlaceNonIncreasing(h: Hit, s: seq<Hit>)
    requires NonIncreasing(s)
    ensures NonIncreasing(Place(h, s))
  {
    if s != [] && s[0].score > h.score {
      var t := Place(h, s[1..]);
      PlaceNonIncreasing(h, s[1..]);
      var r := [s[0]] + t;
      forall i, j | 0 <= i < j < |r| ensures r[i].score >= r[j].score {
        if i == 0 {
          assert r[j] in multiset(t);
          assert r[j] == h || r[j] in s[1..];
        } else {
          assert r[i] == t[i - 1] && r[j] == t[j - 1];
        }
      }
    }
  }

  /** `list.sort(key=score, reverse=True)`: highest score first. */
  function SortByScore(s: seq<Hit>): (r: seq<Hit>)
    ensures multiset(r) == multiset(s)
    ensures NonIncreasing(r)
  {
    if s == [] then []
    else
      var t := SortByScore(s[1..]);
      PlaceNonIncreasing(s[0], t);
      assert s == [s[0]] + s[1..];
      Place(s[0], t)
  }

  /** The sort is stable, as Python's is also when reversed: entries of equal score keep
      their original order. */
  lemma {:induction false} SortByScoreStable(s: seq<Hit>, k: real)
    ensures WithScore(SortByScore(s), k) == WithScore(s, k)
  {
    if s != [] {
      SortByScoreStable(s[1..], k);
      PlaceWithScore(s[0], SortByScore(s[1..]), k);
      assert s == [s[0]] + s[1..];
      WithScoreCons(s[0], s[1..], k);
    }
  }

  /** In a non-increasing sequence the head scores at least as much as any entry. */
  lemma {:induction false} HeadIsTop(a: seq<Hit>, h: Hit)
    requires NonIncreasing(a) && h in a
    ensures a[0].score >= h.score
  {
    var p :| 0 <= p < |a| && a[p] == h;
  }

  /** Stable descending order is unique: two orderings that are non-increasing and keep
      every equal-score subsequence alike are the same sequence. */
  lemma {:induction false} StableOrderUnique(a: seq<Hit>, b: seq<Hit>)
    requires NonIncreasing(a) && NonIncreasing(b)
    requires forall k :: WithScore(a, k) == WithScore(b, k)
    ensures a == b
    decreases |a|
  {
    if a != [] {
      WithScoreMembers(a, a[0].score, a[0]);
      WithScoreMembers(b, a[0].score, a[0]);
    }
    if b != [] {
      WithScoreMembers(b, b[0].score, b[0]);
      WithScoreMembers(a, b[0].score, b[0]);
    }
    if a != [] && b != [] {
      var m := a[0].score;
      HeadIsTop(b, a[0]);
      HeadIsTop(a, b[0]);
      assert a == [a[0]] + a[1..] && b == [b[0]] + b[1..];
      WithScoreCons(a[0], a[1..], m);
      WithScoreCons(b[0], b[1..], m);
      assert a[0] == WithScore(a, m)[0] == b[0];
      forall k ensures WithScore(a[1..], k) == WithScore(b[1..], k) {
        WithScoreCons(a[0], a[1..], k);
        WithScoreCons(b[0], b[1..], k);
        if k == m {
          assert WithScore(a, k)[1..] == WithScore(a[1..], k);
          assert WithScore(b, k)[1..] == WithScore(b[1..], k);
        } else {
          assert WithScore(a, k) == WithScore(a[1..], k);
          assert WithScore(b, k) == WithScore(b[1..], k);
        }
      }
      StableOrderUnique(a[1..], b[1..]);
    }
  }

  /** SortByScore is THE stable descending sort: any ordering of `s` that is non-increasing
      and keeps equal scores in their original order is equal to it. */
  lemma {:induction false} SortByScoreIsStableSort(s: seq<Hit>, r: seq<Hit>)
    requires NonIncreasing(r)
    requires forall k :: WithScore(r, k) == WithScore(s, k)
    ensures r == SortByScore(s)
  {
    forall k ensures WithScore(r, k) == WithScore(SortByScore(s), k) {
      SortByScoreStable(s, k);
    }
    StableOrderUnique(r, SortByScore(s));
  }

  /** The cards of one search: nothing for a blank query, otherwise the first
      MaxResults hits of the stable descending sort. */
  function Rank(m: Matcher, text: string, rows: seq<Command>): (r: seq<Hit>)
    ensures Strip(text) == [] ==> r == []
    ensures |r| <= MaxResults
    ensures forall i :: 0 <= i < |r| ==>
              && r[i].row in rows
              && r[i].score == Score(m, Strip(text), r[i].row)
              && r[i].score >= Threshold
    ensures NonIncreasing(r)
  {
    var query := Strip(text);
    if query == [] then []
    else
      var ranked := SortByScore(Hits(m, query, rows));
      SortedHitsSound(m, query, rows);
      ranked[..Min(MaxResults, |ranked|)]
  }

  /** `x` is listed before `y`: a higher score, or the same score and stored earlier. */
  predicate Before(x: Hit, y: Hit) {
    x.score > y.score || (x.score == y.score && x.row.id < y.row.id)
  }

  predicate Ranked(s: seq<Hit>) {
    forall i, j :: 0 <= i < j < |s| ==> Before(s[i], s[j])
  }

  lemma {:induction false} PlaceRanked(h: Hit, s: seq<Hit>)
    requires Ranked(s)
    requires forall x :: x in s ==> h.row.id < x.row.id
    ensures Ranked(Place(h, s))
  {
    if s == [] || s[0].score <= h.score {
      var r := [h] + s;
      forall i, j | 0 <= i < j < |r| ensures Before(r[i], r[j]) {
        assert r[j] == s[j - 1];
        if i > 0 {
          assert r[i] == s[i - 1];
        } else if j > 1 {
          assert Before(s[0], s[j - 1]);
        }
      }
    } else {
      var t := Place(h, s[1..]);
      PlaceRanked(h, s[1..]);
      var r := [s[0]] + t;
      forall i, j | 0 <= i < j < |r| ensures Before(r[i], r[j]) {
        if i == 0 {
          assert r[j] in multiset(t);
          assert r[j] == h || r[j] in s[1..];
          if r[j] != h {
            var p :| 0 <= p < |s[1..]| && s[1..][p] == r[j];
            assert Before(s[0], s[p + 1]);
          }
        } else {
          assert r[i] == t[i - 1] && r[j] == t[j - 1];
        }
      }
    }
  }

  /** Sorting hits that come in storage order lists equal scores in storage order. */
  lemma {:induction false} SortRanked(s: seq<Hit>)
    requires HitIdsAscending(s)
    ensures Ranked(SortByScore(s))
  {
    if s != [] {
      var t := SortByScore(s[1..]);
      SortRanked(s[1..]);
      forall x | x in t ensures s[0].row.id < x.row.id {
        assert x in multiset(s[1..]);
        var p :| 0 <= p < |s[1..]| && s[1..][p] == x;
        assert s[p + 1] == x;
      }
      PlaceRanked(s[0], t);
    }
  }

  /** A qualifying row is always shown, unless the list is already full of rows that
      score at least as much. */
  lemma {:induction false} RankComplete(m: Matcher, text: string, rows: seq<Command>, row: Command)
    requires Strip(text) != []
    requires row in rows && Score(m, Strip(text), row) >= Threshold
    ensures var r := Rank(m, text, rows);
            || Hit(Score(m, Strip(text), row), row) in r
            || (|r| == MaxResults && Score(m, Strip(text), row) <= r[MaxResults - 1].score)
  {
    var q := Strip(text);
    var ranked := SortByScore(Hits(m, q, rows));
    var h := Hit(Score(m, q, row), row);
    HitsMembers(m, q, rows, h);
    assert h in multiset(ranked);
    var p :| 0 <= p < |ranked| && ranked[p] == h;
    if p >= MaxResults {
      assert ranked[MaxResults - 1].score >= ranked[p].score;
    } else {
      assert Rank(m, text, rows)[p] == h;
    }
  }

  /** With rows in storage order (ascending ids), the cards are listed by descending score
      and, among equal scores, in storage order. */
  lemma {:induction false} RankOrdered(m: Matcher, text: string, rows: seq<Command>)
    requires AscendingIds(rows)
    ensures Ranked(Rank(m, text, rows))
  {
    var q := Strip(text);
    if q != [] {
      var hits := Hits(m, q, rows);
      var ranked := SortByScore(hits);
      HitsAscending(m, q, rows);
      SortRanked(hits);
      var r := Rank(m, text, rows);
      assert r == ranked[..Min(MaxResults, |ranked|)];
      forall i, j | 0 <= i < j < |r| ensures Before(r[i], r[j]) {
        assert r[i] == ranked[i] && r[j] == ranked[j];
      }
    }
  }

  /** With rows in storage order, a qualifying row that is not shown comes after the last
      card: it scores less, or as much but was stored later. */
  lemma {:induction false} RankTieBreak(m: Matcher, text: string, rows: seq<Command>, row: Command)
    requires AscendingIds(rows)
    requires Strip(text) != []
    requires row in rows && Score(m, Strip(text), row) >= Threshold
    ensures var r := Rank(m, text, rows);
            var h := Hit(Score(m, Strip(text), row), row);
            h !in r ==> |r| == MaxResults && Before(r[MaxResults - 1], h)
  {
    var q := Strip(text);
    var hits := Hits(m, q, rows);
    var ranked := SortByScore(hits);
    HitsAscending(m, q, rows);
    SortRanked(hits);
    var r := Rank(m, text, rows);
    assert r == ranked[..Min(MaxResults, |ranked|)];
    var h := Hit(Score(m, q, row), row);
    HitsMembers(m, q, rows, h);
    assert h in multiset(ranked);
    var p :| 0 <= p < |ranked| && ranked[p] == h;
    if p >= MaxResults {
      assert Before(ranked[MaxResults - 1], ranked[p]);
    } else {
      assert r[p] == h;
    }
  }
}
