/**
 * The in-memory state of the rating page and the operations on it: the
 * users dictionary (with its insertion order), the per-voter histories of
 * judged pairs, registration, photo upload, one run of the voting block,
 * and the stats view.
 */
module Engine {
  import opened Wrappers
  import opened Strings
  import opened Records
  import opened RateLimit
  import opened Matchmaking
  import opened Percentiles
  import Elo

  /** Only addresses ending in this may register. */
  const EmailDomain: string := "@nirmauni.ac.in"

  /** UPLOAD_DIR. */
  const UploadDir: string := "uploads"

  /** MIN_MATCHES_FOR_STATS. */
  const MinMatchesForStats: nat := 6

  datatype Registration = NotUniversityEmail | AlreadyRegistered | GenderMissing | Registered

  /** What one run of the voting block shows the voter. */
  datatype Offer =
    | LimitReached
    | AwaitingUploads
    | AllPairsRated
    | Shown(left: string, right: string)

  /** Which button, if any, was reported pressed in this run. */
  datatype Click = NoClick | LeftBetter | RightBetter

  /** What the stats page shows. */
  datatype StatsView =
    | AwaitingPhoto
    | Progress(rated: nat)
    | Standing(elo: int, percentile: real, tier: Tier)

  /** A voter's history: canonical pairs, none judged twice. */
  predicate HistoryOk(h: seq<Pair>)
  {
    NoDup(h) && forall p :: p in h ==> Lt(p.0, p.1)
  }

  /** `s.replace("@", "_")`: every '@' becomes '_', every other character stays. */
  function ReplaceAt(s: string): (r: string)
    ensures |r| == |s|
    ensures forall i :: 0 <= i < |s| ==> r[i] == if s[i] == '@' then '_' else s[i]
    ensures '@' !in r
  {
    seq(|s|, i requires 0 <= i < |s| => if s[i] == '@' then '_' else s[i])
  }

  /**
   * POSIX `os.path.join(dir, name)` for two parts: an absolute `name`
   * (one starting with '/') discards `dir`; otherwise a '/' separates the
   * two unless `dir` is empty or already ends with one.
   */
  function PathJoin(dir: string, name: string): (p: string)
    ensures |name| > 0 && name[0] == '/' ==> p == name
    ensures !(|name| > 0 && name[0] == '/') ==>
              && EndsWith(p, name)
              && |dir| <= |p| && p[..|dir|] == dir
              && (dir != [] && dir[|dir| - 1] != '/' ==> |p| == |dir| + 1 + |name| && p[|dir|] == '/')
              && (dir == [] || dir[|dir| - 1] == '/' ==> |p| == |dir| + |name|)
  {
    if |name| > 0 && name[0] == '/' then name
    else if dir == [] || dir[|dir| - 1] == '/' then dir + name
    else dir + "/" + name
  }

  /**
   * The saved photo's path: the address with '@' replaced by '_', plus
   * ".jpg", joined to the upload folder. An address that starts with '/'
   * gives an absolute name, and `os.path.join` then drops the folder.
   */
  function UploadPath(email: string): (path: string)
    ensures EndsWith(path, ReplaceAt(email) + ".jpg")
    ensures |email| > 0 && email[0] == '/' ==> path == ReplaceAt(email) + ".jpg"
    ensures !(|email| > 0 && email[0] == '/') ==>
              && |path| == |UploadDir| + 1 + |email| + 4
              && path[..|UploadDir| + 1] == UploadDir + "/"
  {
    var name := ReplaceAt(email) + ".jpg";
    var p := PathJoin(UploadDir, name);
    assert !(|email| > 0 && email[0] == '/') ==> p[..|UploadDir| + 1] == p[..|UploadDir|] + [p[|UploadDir|]];
    p
  }

  /**
   * An address that passes the registration test can still start with '/',
   * and its photo path then lies outside the upload folder.
   */
  lemma AbsoluteAddressEscapes()
    ensures EndsWith("/srv/x@nirmauni.ac.in", EmailDomain)
    ensures UploadPath("/srv/x@nirmauni.ac.in") == "/srv/x_nirmauni.ac.in.jpg"
  {
    assert "/srv/x@nirmauni.ac.in"[6..] == EmailDomain;
    assert ReplaceAt("/srv/x@nirmauni.ac.in") == "/srv/x_nirmauni.ac.in";
  }

  /** `users.items()` reduced to (email, rating), in the dictionary's order. */
  function Entries(order: seq<string>, users: map<string, User>): (s: seq<Entry>)
    requires AllRegistered(order, users)
    ensures |s| == |order|
    ensures forall i :: 0 <= i < |order| ==> s[i] == Entry(order[i], users[order[i]].elo)
  {
    if order == [] then []
    else
      assert AllRegistered(order[1..], users);
      [Entry(order[0], users[order[0]].elo)] + Entries(order[1..], users)
  }

  /** The users dictionary after the voter's vote times are pruned to the window. */
  function PrunedUsers(users: map<string, User>, voter: string, now: int): map<string, User>
    requires voter in users
  {
    users[voter := users[voter].(voteTimes := Recent(users[voter].voteTimes, now))]
  }

  /**
   * `after` is `before` with one vote applied: a and b take the updated
   * ratings and one more match each, the voter's vote times gain `now`,
   * and every other record is untouched.
   */
  ghost predicate VoteApplied(before: map<string, User>, after: map<string, User>,
                              voter: string, a: string, b: string, sa: real, ea: real, now: int)
    requires voter in before && a in before && b in before
  {
    var (ra, rb) := Elo.UpdateElo(before[a].elo, before[b].elo, sa, ea);
    && after.Keys == before.Keys
    && after[a] == before[a].(elo := ra, matchesPlayed := before[a].matchesPlayed + 1)
    && after[b] == before[b].(elo := rb, matchesPlayed := before[b].matchesPlayed + 1)
    && after[voter] == before[voter].(voteTimes := before[voter].voteTimes + [now])
    && forall u :: u in before && u != a && u != b && u != voter ==> after[u] == before[u]
  }

  /**
   * `o` is what the pair-selection step shows for eligible list `e`,
   * candidate list `c` and random draw `roll`: waiting for uploads with
   * fewer than two eligible users, "all rated" with no candidate left, and
   * otherwise the drawn candidate, smaller identity on the left.
   */
  ghost predicate Offered(o: Offer, e: seq<string>, c: seq<Pair>, roll: nat)
  {
    && o != LimitReached
    && (o == AwaitingUploads <==> |e| < 2)
    && (o == AllPairsRated <==> |e| >= 2 && c == [])
    && (o.Shown? ==> c != [] && (o.left, o.right) == Pick(c, roll))
  }

  /**
   * The address test accepts an address in the university's domain and
   * refuses another domain and the bare domain without '@'.
   */
  lemma {:induction false} AddressExamples()
    ensures EndsWith("ab@nirmauni.ac.in", EmailDomain)
    ensures !EndsWith("student@gmail.com", EmailDomain)
    ensures !EndsWith("nirmauni.ac.in", EmailDomain)
  {
    assert "ab@nirmauni.ac.in"[2..] == EmailDomain;
    assert "student@gmail.com"[2..][0] != EmailDomain[0];
  }

  /** Writing a key twice keeps only the second value. */
  lemma UpdateTwice<K, V>(m: map<K, V>, k: K, v1: V, v2: V)
    ensures m[k := v1][k := v2] == m[k := v2]
  {
  }

  class Store {
    /** The users dictionary, keyed by email. */
    var users: map<string, User>
    /** The dictionary's keys in insertion order (the order the eligible list follows). */
    var order: seq<string>
    /** Each voter's judged pairs. */
    var votes: map<string, seq<Pair>>

    ghost predicate Valid()
      reads this
    {
      && NoDup(order)
      && (forall u :: u in order <==> u in users)
      && (forall u :: u in users ==> |users[u].voteTimes| <= MaxVotesPerHour)
      && (forall v :: v in votes ==> HistoryOk(votes[v]))
    }

    /** Both stores start as empty dictionaries. */
    constructor ()
      ensures Valid()
      ensures users == map[] && order == [] && votes == map[]
    {
      users := map[];
      order := [];
      votes := map[];
    }

    /** Registration: a university address not yet registered, with a gender, gets the initial record. */
    method Register(email: string, passwordHash: string, gender: Option<Gender>) returns (r: Registration)
      requires Valid()
      modifies this
      ensures Valid()
      ensures r == NotUniversityEmail <==> !EndsWith(email, EmailDomain)
      ensures r == AlreadyRegistered <==> EndsWith(email, EmailDomain) && email in old(users)
      ensures r == GenderMissing <==> EndsWith(email, EmailDomain) && email !in old(users) && gender.None?
      ensures r == Registered ==> gender.Some? && users == old(users)[email := NewUser(passwordHash, gender.value)]
                                   && order == old(order) + [email]
      ensures r != Registered ==> users == old(users) && order == old(order)
      ensures votes == old(votes)
    {
      if !EndsWith(email, EmailDomain) {
        r := NotUniversityEmail;
      } else if email in users {
        r := AlreadyRegistered;
      } else if gender.None? {
        r := GenderMissing;
      } else {
        users := users[email := NewUser(passwordHash, gender.value)];
        order := order + [email];
        r := Registered;
      }
    }

    /** Photo upload: only a user without a photo stores one; afterwards the user has a photo. */
    method Upload(email: string)
      requires Valid() && email in users
      modifies this
      ensures Valid()
      ensures old(users)[email].pic.None? ==>
                users == old(users)[email := old(users)[email].(pic := Some(UploadPath(email)))]
      ensures old(users)[email].pic.Some? ==> users == old(users)
      ensures HasPhoto(users[email]) || old(users)[email].pic.Some?
      ensures order == old(order) && votes == old(votes)
    {
      if users[email].pic.None? {
        var path := UploadPath(email);
        assert |path| >= 4;
        users := users[email := users[email].(pic := Some(path))];
      }
    }

    /** The rate-limit step: prune the voter's vote times to the window and report whether voting is refused. */
    method PruneVoteTimes(voter: string, now: int) returns (blocked: bool)
      requires Valid() && voter in users
      modifies this
      ensures Valid()
      ensures users == PrunedUsers(old(users), voter, now)
      ensures blocked <==> Blocked(old(users)[voter].voteTimes, now)
      ensures order == old(order) && votes == old(votes)
    {
      users := users[voter := users[voter].(voteTimes := Recent(users[voter].voteTimes, now))];
      blocked := |users[voter].voteTimes| >= MaxVotesPerHour;
    }

    /**
     * The pair-selection step: the eligible users; fewer than two means
     * waiting for uploads; otherwise the voter's history is created if
     * missing, the candidates are built and one of them is drawn.
     */
    method OfferPair(voter: string, roll: nat) returns (o: Offer)
      requires Valid() && voter in users
      modifies this
      ensures Valid()
      ensures users == old(users) && order == old(order)
      ensures var e := Eligible(order, users, voter, users[voter].gender);
              var tried := if voter in old(votes) then old(votes)[voter] else [];
              var c := Candidates(e, tried, users, UseEloMatching(order, users));
              && Offered(o, e, c, roll)
              && (o.Shown? ==> IsCandidate((o.left, o.right), e, tried, users, UseEloMatching(order, users)))
              && votes == if |e| < 2 then old(votes) else old(votes)[voter := tried]
    {
      var g := users[voter].gender;
      var eligible := Eligible(order, users, voter, g);
      if |eligible| < 2 {
        o := AwaitingUploads;
        return;
      }
      if voter !in votes {
        votes := votes[voter := []];
      }
      var tried := votes[voter];
      var useElo := PhotoCount(order, users) >= EloMatchingThreshold;
      var possible := BuildCandidates(eligible, tried, users, useElo);
      if possible == [] {
        o := AllPairsRated;
      } else {
        var p := Pick(possible, roll);
        o := Shown(p.0, p.1);
      }
    }

    /**
     * One button press: `update_elo` on the pair with A's score 1 (left
     * better) or 0 (right better), one more match for each, the sorted pair
     * appended to the voter's history and `now` to the voter's vote times.
     */
    method ApplyVote(voter: string, a: string, b: string, leftWins: bool,
                     expected: (int, int) -> real, now: int)
      requires Valid()
      requires voter in users && a in users && b in users
      requires a != b && voter != a && voter != b
      requires voter in votes && SortPair(a, b) !in votes[voter]
      requires |users[voter].voteTimes| < MaxVotesPerHour
      requires forall x, y :: 0.0 < expected(x, y) < 1.0
      modifies this
      ensures Valid()
      ensures var sa := if leftWins then 1.0 else 0.0;
              VoteApplied(old(users), users, voter, a, b, sa, expected(old(users)[a].elo, old(users)[b].elo), now)
      ensures leftWins ==>
                && old(users)[a].elo <= users[a].elo <= old(users)[a].elo + Elo.KFactor
                && old(users)[b].elo - Elo.KFactor <= users[b].elo <= old(users)[b].elo
      ensures !leftWins ==>
                && old(users)[a].elo - Elo.KFactor <= users[a].elo <= old(users)[a].elo
                && old(users)[b].elo <= users[b].elo <= old(users)[b].elo + Elo.KFactor
      ensures votes == old(votes)[voter := old(votes)[voter] + [SortPair(a, b)]]
      ensures order == old(order)
    {
      var sa := if leftWins then 1.0 else 0.0;
      var ea := expected(users[a].elo, users[b].elo);
      Elo.WinnerGainsAtMostK(users[a].elo, users[b].elo, ea);
      var (ra, rb) := Elo.UpdateElo(users[a].elo, users[b].elo, sa, ea);
      var recA := users[a].(elo := ra, matchesPlayed := users[a].matchesPlayed + 1);
      var recB := users[b].(elo := rb, matchesPlayed := users[b].matchesPlayed + 1);
      var recVoter := users[voter].(voteTimes := users[voter].voteTimes + [now]);
      users := users[a := recA][b := recB][voter := recVoter];
      var pair := SortPair(a, b);
      NoDupConcat(votes[voter], [pair]);
      votes := votes[voter := votes[voter] + [pair]];
    }

    /**
     * The part of a voting run after the limit check: offer a pair and, if
     * a button was pressed in this run, apply the vote to that pair.
     */
    method OfferAndVote(voter: string, roll: nat, click: Click, expected: (int, int) -> real, now: int)
      returns (o: Offer)
      requires Valid() && voter in users
      requires |users[voter].voteTimes| < MaxVotesPerHour
      requires forall x, y :: 0.0 < expected(x, y) < 1.0
      modifies this
      ensures Valid()
      ensures order == old(order)
      ensures var e := Eligible(order, old(users), voter, old(users)[voter].gender);
              var tried := if voter in old(votes) then old(votes)[voter] else [];
              var useElo := UseEloMatching(order, old(users));
              var c := Candidates(e, tried, old(users), useElo);
              && Offered(o, e, c, roll)
              && (o.Shown? ==> IsCandidate((o.left, o.right), e, tried, old(users), useElo))
              && (o.Shown? && click != NoClick ==>
                    && VoteApplied(old(users), users, voter, o.left, o.right, if click == LeftBetter then 1.0 else 0.0,
                                   expected(old(users)[o.left].elo, old(users)[o.right].elo), now)
                    && votes == old(votes)[voter := tried + [(o.left, o.right)]])
              && (!o.Shown? || click == NoClick ==>
                    && users == old(users)
                    && votes == if o == AwaitingUploads then old(votes) else old(votes)[voter := tried])
    {
      ghost var tried := if voter in votes then votes[voter] else [];
      ghost var e := Eligible(order, users, voter, users[voter].gender);
      o := OfferPair(voter, roll);
      if o.Shown? && click != NoClick {
        ghost var offered := votes;
        assert offered == old(votes)[voter := tried];
        assert Lt(o.left, o.right) && (o.left, o.right) !in tried;
        LtIrreflexive(o.left);
        LtAsymmetric(o.left, o.right);
        assert SortPair(o.left, o.right) == (o.left, o.right);
        ApplyVote(voter, o.left, o.right, click == LeftBetter, expected, now);
        assert offered[voter] == tried;
        UpdateTwice(old(votes), voter, tried, tried + [(o.left, o.right)]);
      }
    }

    /**
     * One run of the voting block. The expected score is the function
     * `expected`; `roll` is the random draw; `click` is the button reported
     * pressed in this run, and a press applies to the pair drawn in this
     * same run.
     */
    method VoteRun(voter: string, now: int, roll: nat, click: Click, expected: (int, int) -> real)
      returns (o: Offer)
      requires Valid() && voter in users
      requires forall x, y :: 0.0 < expected(x, y) < 1.0
      modifies this
      ensures Valid()
      ensures order == old(order)
      ensures var pu := PrunedUsers(old(users), voter, now);
              var e := Eligible(order, pu, voter, pu[voter].gender);
              var tried := if voter in old(votes) then old(votes)[voter] else [];
              var useElo := UseEloMatching(order, pu);
              var c := Candidates(e, tried, pu, useElo);
              var blocked := Blocked(old(users)[voter].voteTimes, now);
              && (blocked ==> o == LimitReached)
              && (!blocked ==> Offered(o, e, c, roll))
              && (o.Shown? ==> IsCandidate((o.left, o.right), e, tried, pu, useElo))
              && (o.Shown? && click != NoClick ==>
                    && VoteApplied(pu, users, voter, o.left, o.right, if click == LeftBetter then 1.0 else 0.0,
                                   expected(pu[o.left].elo, pu[o.right].elo), now)
                    && votes == old(votes)[voter := tried + [(o.left, o.right)]])
              && (!o.Shown? || click == NoClick ==>
                    && users == pu
                    && votes == if o == AllPairsRated || o.Shown? then old(votes)[voter := tried] else old(votes))
    {
      var blocked := PruneVoteTimes(voter, now);
      if blocked {
        o := LimitReached;
        return;
      }
      o := OfferAndVote(voter, roll, click, expected, now);
    }

    /**
     * The stats page: without a photo, an invitation to upload; below six
     * matches, the progress count; otherwise the rating, the percentile
     * among all users and its tier.
     */
    function Stats(email: string): (v: StatsView)
      reads this
      requires Valid() && email in users
      ensures v == AwaitingPhoto <==> users[email].pic.None?
      ensures v.Progress? <==> users[email].pic.Some? && users[email].matchesPlayed < MinMatchesForStats
      ensures v.Progress? ==> v.rated == users[email].matchesPlayed
      ensures v.Standing? ==> v.elo == users[email].elo && 0.0 <= v.percentile <= 100.0 && v.tier == Band(v.percentile)
      ensures v.Standing? ==> v.percentile == ComputePercentiles(Entries(order, users))[email]
    {
      if users[email].pic.None? then AwaitingPhoto
      else if users[email].matchesPlayed < MinMatchesForStats then Progress(users[email].matchesPlayed)
      else
        var s := Entries(order, users);
        var k := IndexOf(order, email);
        assert s[k] in s;
        var p := ComputePercentiles(s)[email];
        Standing(users[email].elo, p, Band(p))
    }

    /**
     * Of two users whose standings are shown, the lower-rated one has the
     * strictly lower percentile and no higher tier.
     */
    lemma StatsOrdered(x: string, y: string)
      requires Valid() && x in users && y in users
      requires Stats(x).Standing? && Stats(y).Standing?
      requires users[x].elo < users[y].elo
      ensures Stats(x).percentile < Stats(y).percentile
      ensures TierIndex(Stats(x).tier) <= TierIndex(Stats(y).tier)
    {
      var s := Entries(order, users);
      var i, j := IndexOf(order, x), IndexOf(order, y);
      LowerEloLowerPercentile(s, i, j);
      BandMonotone(Stats(x).percentile, Stats(y).percentile);
    }
  }
}
