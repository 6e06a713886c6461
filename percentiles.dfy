/**
 * Percentile ranks for the stats page. All users, with or without a photo
 * and of either gender, are sorted by rating with a stable sort (ties keep
 * the dictionary's order); rank r of N becomes r / (N - 1) * 100, and a sole
 * user gets 100. The arithmetic is exact here, where the program uses
 * floating point.
 */
module Percentiles {

  /** One `(email, record)` item of the users dictionary, reduced to what the sort reads. */
  datatype Entry = Entry(email: string, elo: int)

  predicate SortedByElo(t: seq<Entry>)
  {
    forall i, j :: 0 <= i < j < |t| ==> t[i].elo <= t[j].elo
  }

  /** No email occurs twice (dictionary keys are unique). */
  predicate UniqueEmails(s: seq<Entry>)
  {
    forall i, j :: 0 <= i < j < |s| ==> s[i].email != s[j].email
  }

  function EmailsOf(s: seq<Entry>): set<string>
  {
    set x | x in s :: x.email
  }

  /** Places `x` after every entry of rating at most its own. */
  function Insert(x: Entry, t: seq<Entry>): (r: seq<Entry>)
    ensures |r| == |t| + 1
    ensures multiset(r) == multiset(t) + multiset{x}
  {
    if t == [] then [x]
    else if x.elo < t[0].elo then [x] + t
    else
      assert t == [t[0]] + t[1..];
      [t[0]] + Insert(x, t[1..])
  }

  lemma InsertMembers(x: Entry, t: seq<Entry>)
    ensures forall y :: y in Insert(x, t) <==> y == x || y in t
  {
    forall y ensures y in Insert(x, t) <==> y == x || y in t {
      assert y in Insert(x, t) <==> y in multiset(Insert(x, t));
      assert y in t <==> y in multiset(t);
    }
  }

  /** Inserting into a sorted list keeps it sorted. */
  lemma {:induction false} InsertSorted(x: Entry, t: seq<Entry>)
    requires SortedByElo(t)
    ensures SortedByElo(Insert(x, t))
  {
    if t != [] && x.elo >= t[0].elo {
      InsertSorted(x, t[1..]);
      var r := Insert(x, t);
      forall k | 1 <= k < |r| ensures t[0].elo <= r[k].elo {
        assert r[k] in multiset(Insert(x, t[1..]));
        assert r[k] == x || r[k] in multiset(t[1..]);
        if r[k] != x {
          var m :| 0 <= m < |t[1..]| && t[1..][m] == r[k];
          assert t[m + 1] == r[k];
        }
      }
    }
  }

  /**
   * `sorted(users.items(), key=elo)`: stable insertion sort, each entry
   * inserted after the earlier ones of equal rating.
   */
  function SortByElo(s: seq<Entry>): (t: seq<Entry>)
    ensures |t| == |s|
    ensures multiset(t) == multiset(s)
    ensures SortedByElo(t)
  {
    if s == [] then []
    else
      var n := |s| - 1;
      assert s == s[..n] + [s[n]];
      InsertSorted(s[n], SortByElo(s[..n]));
      Insert(s[n], SortByElo(s[..n]))
  }

  lemma SortMembers(s: seq<Entry>)
    ensures forall y :: y in SortByElo(s) <==> y in s
  {
    forall y ensures y in SortByElo(s) <==> y in s {
      assert y in SortByElo(s) <==> y in multiset(SortByElo(s));
      assert y in s <==> y in multiset(s);
    }
  }

  /** The entries of rating `v`, in order. */
  function WithElo(s: seq<Entry>, v: int): seq<Entry>
  {
    if s == [] then []
    else (if s[0].elo == v then [s[0]] else []) + WithElo(s[1..], v)
  }

  lemma {:induction false} WithEloAppend(a: seq<Entry>, b: seq<Entry>, v: int)
    ensures WithElo(a + b, v) == WithElo(a, v) + WithElo(b, v)
  {
    if a == [] {
      assert a + b == b;
    } else {
      var h := if a[0].elo == v then [a[0]] else [];
      assert a + b == [a[0]] + (a[1..] + b);
      WithEloCons(a[0], a[1..] + b, v);
      WithEloAppend(a[1..], b, v);
      WithEloCons(a[0], a[1..], v);
      assert a == [a[0]] + a[1..];
      assert h + (WithElo(a[1..], v) + WithElo(b, v)) == (h + WithElo(a[1..], v)) + WithElo(b, v);
    }
  }

  lemma {:induction false} WithEloNone(t: seq<Entry>, v: int)
    requires forall y :: y in t ==> y.elo != v
    ensures WithElo(t, v) == []
  {
    if t != [] {
      assert t[0] in t;
      assert forall y :: y in t[1..] ==> y in t;
      WithEloNone(t[1..], v);
    }
  }

  lemma WithEloCons(x: Entry, t: seq<Entry>, v: int)
    ensures WithElo([x] + t, v) == (if x.elo == v then [x] else []) + WithElo(t, v)
  {
    assert ([x] + t)[0] == x && ([x] + t)[1..] == t;
  }

  /** An entry that goes in front of a sorted list is the last of its rating. */
  lemma InsertFrontStable(x: Entry, t: seq<Entry>, v: int)
    requires SortedByElo(t) && (t == [] || x.elo < t[0].elo)
    ensures WithElo([x] + t, v) == WithElo(t, v) + (if x.elo == v then [x] else [])
  {
    WithEloCons(x, t, v);
    if x.elo == v {
      forall y | y in t ensures y.elo != v {
        var k :| 0 <= k < |t| && t[k] == y;
        assert t[0].elo <= t[k].elo;
      }
      WithEloNone(t, v);
    }
  }

  lemma {:induction false} InsertStable(x: Entry, t: seq<Entry>, v: int)
    requires SortedByElo(t)
    ensures WithElo(Insert(x, t), v) == WithElo(t, v) + (if x.elo == v then [x] else [])
  {
    if t == [] || x.elo < t[0].elo {
      assert Insert(x, t) == [x] + t;
      InsertFrontStable(x, t, v);
    } else {
      var rest := Insert(x, t[1..]);
      assert Insert(x, t) == [t[0]] + rest;
      InsertStable(x, t[1..], v);
      WithEloCons(t[0], rest, v);
      WithEloCons(t[0], t[1..], v);
      assert t == [t[0]] + t[1..];
    }
  }

  lemma WithEloSnoc(s: seq<Entry>, x: Entry, v: int)
    ensures WithElo(s + [x], v) == WithElo(s, v) + (if x.elo == v then [x] else [])
  {
    WithEloAppend(s, [x], v);
    WithEloCons(x, [], v);
    assert [x] + [] == [x];
  }

  /**
   * The sort is stable: for every rating, the entries of that rating come
   * out in the order they went in.
   */
  lemma {:induction false} SortStable(s: seq<Entry>, v: int)
    ensures WithElo(SortByElo(s), v) == WithElo(s, v)
  {
    if s != [] {
      var n := |s| - 1;
      var init, x := s[..n], s[n];
      assert s == init + [x];
      assert SortByElo(s) == Insert(x, SortByElo(init));
      SortStable(init, v);
      InsertStable(x, SortByElo(init), v);
      WithEloSnoc(init, x, v);
    }
  }

  lemma {:induction false} InsertUnique(x: Entry, t: seq<Entry>)
    requires UniqueEmails(t)
    requires forall y :: y in t ==> y.email != x.email
    ensures UniqueEmails(Insert(x, t))
  {
    if t != [] && x.elo >= t[0].elo {
      assert forall y :: y in t[1..] ==> y in t;
      InsertUnique(x, t[1..]);
      InsertMembers(x, t[1..]);
      assert t[0] in t;
      assert forall y :: y in t[1..] ==> y.email != t[0].email by {
        forall y | y in t[1..] ensures y.email != t[0].email {
          var k :| 0 <= k < |t[1..]| && t[1..][k] == y;
          assert t[k + 1] == y;
        }
      }
    }
  }

  lemma {:induction false} SortUnique(s: seq<Entry>)
    requires UniqueEmails(s)
    ensures UniqueEmails(SortByElo(s))
  {
    if s != [] {
      var n := |s| - 1;
      SortUnique(s[..n]);
      SortMembers(s[..n]);
      forall y | y in SortByElo(s[..n]) ensures y.email != s[n].email {
        var k :| 0 <= k < n && s[..n][k] == y;
      }
      InsertUnique(s[n], SortByElo(s[..n]));
    }
  }

  lemma QuotientBounds(x: real, d: real)
    requires 0.0 <= x <= d && 0.0 < d
    ensures 0.0 <= x / d <= 1.0
    ensures x == d ==> x / d == 1.0
  {
  }

  lemma QuotientLess(x: real, y: real, d: real)
    requires x < y && 0.0 < d
    ensures x / d < y / d
  {
  }

  /** The percentile of rank `rank` among `n` users. */
  function Pct(rank: nat, n: nat): (p: real)
    requires rank < n
    ensures 0.0 <= p <= 100.0
    ensures n > 1 && rank == 0 ==> p == 0.0
    ensures rank == n - 1 ==> p == 100.0
  {
    if n > 1 then
      QuotientBounds(rank as real, (n - 1) as real);
      rank as real / (n - 1) as real * 100.0
    else 100.0
  }

  /** A strictly higher rank gives a strictly higher percentile. */
  lemma PctIncreasing(r1: nat, r2: nat, n: nat)
    requires r1 < r2 < n
    ensures Pct(r1, n) < Pct(r2, n)
  {
    QuotientLess(r1 as real, r2 as real, (n - 1) as real);
  }

  /** The dictionary the `for rank, (email, data)` loop fills after its first `k` steps. */
  function PercentileMap(t: seq<Entry>, k: nat): (m: map<string, real>)
    requires k <= |t|
    ensures m.Keys == EmailsOf(t[..k])
    ensures forall e :: e in m ==> 0.0 <= m[e] <= 100.0
  {
    if k == 0 then map[]
    else
      assert t[..k] == t[..k - 1] + [t[k - 1]];
      PercentileMap(t, k - 1)[t[k - 1].email := Pct(k - 1, |t|)]
  }

  /** With unique emails, the entry at sorted position `r` keeps the percentile of rank `r`. */
  lemma {:induction false} PercentileMapAt(t: seq<Entry>, k: nat, r: nat)
    requires UniqueEmails(t) && r < k <= |t|
    ensures t[r].email in PercentileMap(t, k)
    ensures PercentileMap(t, k)[t[r].email] == Pct(r, |t|)
  {
    var step := PercentileMap(t, k - 1)[t[k - 1].email := Pct(k - 1, |t|)];
    assert PercentileMap(t, k) == step;
    if r < k - 1 {
      PercentileMapAt(t, k - 1, r);
      assert t[r].email != t[k - 1].email;
    }
  }

  /**
   * `compute_percentiles`: every user gets exactly one percentile, each
   * between 0 and 100.
   */
  function ComputePercentiles(s: seq<Entry>): (m: map<string, real>)
    ensures m.Keys == EmailsOf(s)
    ensures forall e :: e in m ==> 0.0 <= m[e] <= 100.0
  {
    var t := SortByElo(s);
    assert t[..|t|] == t;
    SortMembers(s);
    assert EmailsOf(t) == EmailsOf(s);
    PercentileMap(t, |t|)
  }

  /** The user at sorted position `r` has percentile `r / (N - 1) * 100`. */
  lemma PercentileOfRank(s: seq<Entry>, r: nat)
    requires UniqueEmails(s) && r < |s|
    ensures ComputePercentiles(s)[SortByElo(s)[r].email] == Pct(r, |s|)
  {
    SortUnique(s);
    PercentileMapAt(SortByElo(s), |s|, r);
  }

  /** The lowest-ranked user gets 0 and the highest 100; a sole user gets 100. */
  lemma PercentileExtremes(s: seq<Entry>)
    requires UniqueEmails(s) && s != []
    ensures |s| > 1 ==> ComputePercentiles(s)[SortByElo(s)[0].email] == 0.0
    ensures ComputePercentiles(s)[SortByElo(s)[|s| - 1].email] == 100.0
  {
    PercentileOfRank(s, 0);
    PercentileOfRank(s, |s| - 1);
  }

  /** A strictly lower rating gives a strictly lower percentile. */
  lemma LowerEloLowerPercentile(s: seq<Entry>, i: nat, j: nat)
    requires UniqueEmails(s) && i < |s| && j < |s|
    requires s[i].elo < s[j].elo
    ensures ComputePercentiles(s)[s[i].email] < ComputePercentiles(s)[s[j].email]
  {
    var t := SortByElo(s);
    SortMembers(s);
    assert s[i] in t && s[j] in t;
    var ri :| 0 <= ri < |t| && t[ri] == s[i];
    var rj :| 0 <= rj < |t| && t[rj] == s[j];
    assert ri < rj;
    PercentileOfRank(s, ri);
    PercentileOfRank(s, rj);
    PctIncreasing(ri, rj, |s|);
  }

  /** Whoever holds percentile 100 has the highest rating. */
  lemma TopPercentileHasTopElo(s: seq<Entry>, i: nat)
    requires UniqueEmails(s) && i < |s|
    requires ComputePercentiles(s)[s[i].email] == 100.0
    ensures forall j :: 0 <= j < |s| ==> s[j].elo <= s[i].elo
  {
    forall j | 0 <= j < |s| ensures s[j].elo <= s[i].elo {
      if s[j].elo > s[i].elo {
        LowerEloLowerPercentile(s, i, j);
        assert false;
      }
    }
  }

  lemma SortThreeExample()
    ensures SortByElo([Entry("a", 1200), Entry("b", 1000), Entry("c", 1400)])
         == [Entry("b", 1000), Entry("a", 1200), Entry("c", 1400)]
  {
    var a, b, c := Entry("a", 1200), Entry("b", 1000), Entry("c", 1400);
    assert [a, b, c][..2] == [a, b] && [a, b][..1] == [a];
    assert SortByElo([a]) == [a];
    assert SortByElo([a, b]) == Insert(b, [a]) == [b, a];
    assert Insert(c, [a]) == [a, c];
  }

  /** Ratings 1200, 1000, 1400 give percentiles 50, 0, 100. */
  lemma ThreeUsersExample()
    ensures var m := ComputePercentiles([Entry("a", 1200), Entry("b", 1000), Entry("c", 1400)]);
            m["b"] == 0.0 && m["a"] == 50.0 && m["c"] == 100.0
  {
    var s := [Entry("a", 1200), Entry("b", 1000), Entry("c", 1400)];
    SortThreeExample();
    PercentileOfRank(s, 0);
    PercentileOfRank(s, 1);
    PercentileOfRank(s, 2);
  }

  /** Equal ratings keep dictionary order, so they get different percentiles. */
  lemma TiesKeepOrderExample()
    ensures ComputePercentiles([Entry("x", 1200), Entry("y", 1200)]) == map["x" := 0.0, "y" := 100.0]
  {
    var s := [Entry("x", 1200), Entry("y", 1200)];
    assert SortByElo(s[..1]) == [Entry("x", 1200)];
    assert SortByElo(s) == s;
    assert PercentileMap(s, 1) == map["x" := 0.0];
    assert PercentileMap(s, 2) == map["x" := 0.0]["y" := 100.0];
  }

  /** A sole user gets 100. */
  lemma SoleUserExample(x: Entry)
    ensures ComputePercentiles([x]) == map[x.email := 100.0]
  {
    assert SortByElo([x]) == [x];
  }

  /** The six descriptive tiers of `percentile_description`, lowest first. */
  datatype Tier = RoomForImprovement | AboveAverage | PrettyGood | StrongPresence | Excellent | Elite

  function TierIndex(t: Tier): nat
  {
    match t
    case RoomForImprovement => 0
    case AboveAverage => 1
    case PrettyGood => 2
    case StrongPresence => 3
    case Excellent => 4
    case Elite => 5
  }

  /** The lowest percentile of tier `k`, for k = 1 .. 5: 50, 60, 70, 80, 90. */
  function Cutoff(k: nat): real
  {
    (40 + 10 * k) as real
  }

  /**
   * `percentile_description`: the tier whose range holds `p`, tier k
   * starting at Cutoff(k) and ending below Cutoff(k + 1).
   */
  function Band(p: real): (r: Tier)
    ensures TierIndex(r) == 0 || Cutoff(TierIndex(r)) <= p
    ensures TierIndex(r) == 5 || p < Cutoff(TierIndex(r) + 1)
  {
    if p < 50.0 then RoomForImprovement
    else if p < 60.0 then AboveAverage
    else if p < 70.0 then PrettyGood
    else if p < 80.0 then StrongPresence
    else if p < 90.0 then Excellent
    else Elite
  }

  /** A higher percentile never gets a lower tier. */
  lemma BandMonotone(p: real, q: real)
    requires p <= q
    ensures TierIndex(Band(p)) <= TierIndex(Band(q))
  {
  }
}
