/**
 * The hourly vote cap. Each user keeps the times of their recent votes;
 * before every vote the list is pruned to the last hour and voting is
 * refused once MAX_VOTES_PER_HOUR of them remain. Times are whole seconds.
 */
module RateLimit {

  /** The window, one hour in seconds. */
  const Window: int := 3600

  /** MAX_VOTES_PER_HOUR. */
  const MaxVotesPerHour: nat := 15

  /** The vote times still inside the window at `now`, in their original order. */
  function Recent(times: seq<int>, now: int): (r: seq<int>)
    ensures |r| <= |times|
    ensures forall t :: t in r <==> t in times && now - t < Window
  {
    if times == [] then []
    else (if now - times[0] < Window then [times[0]] else []) + Recent(times[1..], now)
  }

  /** Voting is refused when the pruned list holds the cap or more. */
  predicate Blocked(times: seq<int>, now: int): (b: bool)
    ensures b ==> |times| >= MaxVotesPerHour
  {
    |Recent(times, now)| >= MaxVotesPerHour
  }

  /** Pruning is a filter: it distributes over concatenation, so order is kept. */
  lemma {:induction false} RecentAppend(a: seq<int>, b: seq<int>, now: int)
    ensures Recent(a + b, now) == Recent(a, now) + Recent(b, now)
  {
    if a != [] {
      assert (a + b)[0] == a[0] && (a + b)[1..] == a[1..] + b;
      RecentAppend(a[1..], b, now);
      var head := if now - a[0] < Window then [a[0]] else [];
      calc {
        Recent(a + b, now);
        head + Recent(a[1..] + b, now);
        head + (Recent(a[1..], now) + Recent(b, now));
        (head + Recent(a[1..], now)) + Recent(b, now);
      }
    } else {
      assert a + b == b;
    }
  }

  /** Nothing is dropped while every time is inside the window. */
  lemma {:induction false} RecentKeepsAll(times: seq<int>, now: int)
    requires forall t :: t in times ==> now - t < Window
    ensures Recent(times, now) == times
  {
    if times != [] {
      assert times[0] in times;
      assert forall t :: t in times[1..] ==> t in times;
      RecentKeepsAll(times[1..], now);
      assert times == [times[0]] + times[1..];
    }
  }

  /**
   * Pruning at an earlier time and again later is the same as pruning once
   * later: a prune that is never saved changes nothing that follows.
   */
  lemma {:induction false} RecentLater(times: seq<int>, earlier: int, later: int)
    requires earlier <= later
    ensures Recent(Recent(times, earlier), later) == Recent(times, later)
  {
    if times != [] {
      var head := if earlier - times[0] < Window then [times[0]] else [];
      RecentAppend(head, Recent(times[1..], earlier), later);
      RecentLater(times[1..], earlier, later);
    }
  }

  /** A time exactly one hour old is already out of the window. */
  lemma HourOldIsDropped(now: int)
    ensures Recent([now - Window], now) == []
    ensures Recent([now - Window + 1], now) == [now - Window + 1]
  {
  }

  /** Fifteen votes inside the hour refuse the sixteenth. */
  lemma FullWindowBlocks(times: seq<int>, now: int)
    requires |times| >= MaxVotesPerHour
    requires forall t :: t in times ==> now - t < Window
    ensures Blocked(times, now)
  {
    RecentKeepsAll(times, now);
  }

  /** Once some stored time has expired, fewer than all of them remain. */
  lemma {:induction false} ExpiredShrinks(times: seq<int>, now: int, k: nat)
    requires k < |times| && now - times[k] >= Window
    ensures |Recent(times, now)| < |times|
  {
    if k > 0 {
      ExpiredShrinks(times[1..], now, k - 1);
    }
  }

  /** A capped list unblocks as soon as its oldest time leaves the window. */
  lemma OldestExpiryUnblocks(times: seq<int>, now: int)
    requires |times| <= MaxVotesPerHour
    requires times != [] && now - times[0] >= Window
    ensures !Blocked(times, now)
  {
    ExpiredShrinks(times, now, 0);
  }

  /** An hour after the latest vote, the list is empty. */
  lemma {:induction false} WindowElapses(times: seq<int>, last: int)
    requires forall t :: t in times ==> t <= last
    ensures Recent(times, last + Window) == []
  {
    if times != [] {
      assert forall t :: t in times[1..] ==> t in times;
      assert times[0] in times;
      WindowElapses(times[1..], last);
    }
  }
}
