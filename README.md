# Face-rating engine: a verified Dafny model

This project models the rating engine inside the Streamlit page `app.py`.
Users register with a university address, upload one photo, and vote on
head-to-head pairs of photos of their own gender. The model covers the
logic under the page:

- **Records** (`records.dfy`): the users dictionary's record. It holds a
  password hash, an Elo rating, an optional photo path, a gender, the times
  of the user's own recent votes, and the number of matches played. A new
  record has rating 1200, no photo, no vote times and 0 matches.
- **Rating update** (`elo.dfy`): `update_elo` with K = 32. The logistic
  expected score is an input `ea`. `Elo.UpdateElo` itself places no bound on
  it. The lemmas that need the range `0 < ea < 1` (which the logistic
  formula always meets) require it. The store's vote methods require it of
  their `expected` function. Python's `round` is modelled as
  round-half-to-even over exact reals.
- **Rate limiter** (`ratelimit.dfy`): pruning a voter's vote times to the
  last hour (3600 seconds, a time exactly one hour old is dropped). Voting
  is refused once 15 times remain.
- **Matchmaker** (`matchmaking.dfy`):
  - the eligible list: a photo, not the voter, same gender, in dictionary order;
  - the photo count;
  - the nested loops that build the candidate pairs, each in canonical sorted
    order, untried, and within 100 rating points once at least 30 users have
    photos;
  - the random choice, modelled as a draw index `roll`.
- **Percentiles** (`percentiles.dfy`):
  - a stable sort of all users by rating;
  - rank `r` of `N` maps to `r / (N - 1) * 100`, and a sole user gets 100;
  - the six descriptive tiers.
- **Store** (`engine.dfy`): class `Store` holds three fields.
  - `users`: the dictionary.
  - `order`: the dictionary's insertion order.
  - `votes`: each voter's judged pairs.

  Its methods are registration, photo upload, the prune-and-check step,
  pair selection, vote application, one whole run of the voting block, and
  the stats view. Its invariant `Valid` says four things:
  - the order lists each registered user once;
  - every stored vote-time list holds at most 15 times;
  - every voter's history holds canonical pairs;
  - no pair appears twice in a history, so a voter never judges the same pair twice.

Strings are compared as Python compares them, code point by code point
(`Strings.Lt`). Timestamps are whole seconds.

Notes on the source as modelled:

- **Rounding and the zero sum.** Python's `round` sends exact halves to the
  even integer. For an arbitrary expected score, the two new ratings
  therefore keep their total only up to one point. The total is kept if and
  only if it is even or A's unrounded rating is not an exact half
  (`Elo.RoundedZeroSum`).
  - An exact half needs `64 * ea` to be an odd integer
    (`Elo.TieNeedsOddSixtyFourths`).
  - The logistic formula never gives such a value for integer ratings. For
    an integer difference `d`, `10 ** (d / 400)` is rational only when 400
    divides `d`.
  - So in the program the drift could come only from a floating-point
    rounding accident.
  - `Elo.OddTotalTieExample` uses the hand-chosen expected score 31/64.
    That value is not computed from the ratings 1201 and 1200 (the formula
    gives about 0.5014 for them).
- **Percentiles are global.** They are computed over every user, of both
  genders and with or without a photo. The stats text still calls them a
  standing among "students of your gender". The model follows the code.
  Equal ratings keep dictionary order, so tied users get different
  percentiles (`Percentiles.TiesKeepOrderExample`).
- **Two photo tests.** Eligibility and the photo count test the photo path
  for truthiness (`Records.HasPhoto`: present and non-empty). The stats page
  tests it against `None`. Both tests are kept as written.
- **An address can place the photo outside the upload folder.**
  Registration tests only the domain suffix. So an address starting with '/'
  is accepted, and `os.path.join` then discards the folder
  (`Engine.AbsoluteAddressEscapes`).
- **A press applies to the pair drawn in the same run.** A button press is
  handled in a fresh run of the page, and that run draws its own pair. So a
  vote applies to the pair drawn in that run, which need not be the pair
  shown before the press. `Engine.Store.VoteRun` models one run this way.

## Model

| member | source | states |
|---|---|---|
| `Strings.Lt` | app.py:211 | Python's `<` on strings: code point by code point, and a proper prefix is smaller. Its order properties are the next three rows. |
| `Strings.LtIrreflexive` | app.py:211 | No string is smaller than itself. |
| `Strings.LtAsymmetric` | app.py:211 | Of two strings, at most one is smaller than the other. |
| `Strings.LtConnected` | app.py:211 | Two distinct strings are always ordered one way or the other, so `sorted` has a unique answer. |
| `Strings.EndsWith` | app.py:126 | `str.endswith`: the string's last characters are the suffix. |
| `Strings.SortPair` | app.py:211 | `sorted([a, b])` returns the two identities. For distinct identities the first is strictly smaller in Python string order, and the result is the same whichever order they came in. |
| `Strings.SortPairSymmetric` | app.py:236 | The stored pair `sorted([a, b])` does not depend on which side `a` and `b` were shown. |
| `Elo.RoundHalfEven` | app.py:57 | `round` returns an integer within one half of its argument, and on an exact tie the even one. |
| `Elo.UpdateElo` | app.py:53-57 | Each new rating lies within one half of the exact Elo update: `ra + 32 * (sa - ea)` for A, and `rb - 32 * (sa - ea)` for B. |
| `Elo.UnroundedZeroSum` | app.py:53-57 | Before rounding, B's change is exactly the negation of A's change `K * (sa - ea)`. |
| `Elo.RoundedZeroSum` | app.py:53-57 | After rounding, the total of the two ratings changes by at most one point. It is kept if and only if the old total is even or A's unrounded new rating is not an exact half. |
| `Elo.TieNeedsOddSixtyFourths` | app.py:50-57 | For a win or a loss, A's unrounded new rating is an exact half only if `64 * ea` is an odd integer. |
| `Elo.WinnerGainsAtMostK` | app.py:53-57 | For any expected score strictly between 0 and 1, the winner gains between 0 and 32 points and the loser loses between 0 and 32. |
| `Elo.EvenMatchExample` | app.py:53-57 | Two 1200-rated users with expected score 0.5, A winning, give (1216, 1184). |
| `Elo.OddTotalTieExample` | app.py:53-57 | Ratings 1201 and 1200 with the hand-chosen expected score 31/64, A winning, give (1218, 1184): the total grows by one. The program's own expected score for these ratings is not 31/64. |
| `RateLimit.Recent` | app.py:182-185 | The pruned list holds exactly the stored times less than 3600 seconds before `now`, and is no longer than the original. |
| `RateLimit.Blocked` | app.py:187 | The limit test: the pruned list holds 15 or more times. Blocking needs at least 15 stored times. |
| `RateLimit.RecentAppend` | app.py:182-185 | Pruning is a filter that keeps the original order: pruning a concatenation is concatenating the pruned parts. |
| `RateLimit.RecentKeepsAll` | app.py:182-185 | While every time is inside the window, pruning changes nothing. |
| `RateLimit.RecentLater` | app.py:181-185 | Pruning at one time and again at a later time equals pruning once at the later time. |
| `RateLimit.HourOldIsDropped` | app.py:184 | A time exactly one hour old is dropped; one second younger is kept. |
| `RateLimit.FullWindowBlocks` | app.py:187-188 | Fifteen or more votes inside the hour refuse the next vote. |
| `RateLimit.ExpiredShrinks` | app.py:182-185 | If any stored time has left the window, pruning removes at least one time. |
| `RateLimit.OldestExpiryUnblocks` | app.py:181-188 | A list of at most 15 times stops blocking once its oldest time is an hour old. |
| `RateLimit.WindowElapses` | app.py:181-188 | One hour after the latest vote, the pruned list is empty. |
| `Matchmaking.Eligible` | app.py:190-193 | A user is in the eligible list iff they are registered, have a photo, are not the voter, and share the voter's gender. The list has no repeats. |
| `Records.NewUser` | app.py:135-142 | The record written at registration has the given hash and gender, rating 1200, no photo, no vote times and 0 matches, so it has no photo. |
| `Records.HasPhoto` | app.py:192 | Python truthiness of the photo path: a path is present and non-empty. |
| `Matchmaking.PhotoCount` | app.py:205 | The photo count is at most the number of users. |
| `Matchmaking.PhotoCountCounts` | app.py:205 | With no repeated identity, the count equals the number of users with a photo. |
| `Matchmaking.UseEloMatching` | app.py:205-206 | Close-rating matching is on iff at least 30 users have photos, which needs at least 30 users. |
| `Matchmaking.EligibleWithinPhotoCount` | app.py:190-205 | There are never more eligible users than users with photos. |
| `Matchmaking.Candidates` | app.py:209-221 | The candidate list, defined row by row as the nested loops build it. `CandidatesExact` characterises it. |
| `Matchmaking.CandidatesExact` | app.py:209-221 | The loops' candidate list holds exactly the pairs of two eligible users in strict sorted order that are not in the voter's history and, under close-rating matching, differ by at most 100 points. No pair appears twice. |
| `Matchmaking.FreshVoterGetsPair` | app.py:195-226 | A voter with an empty history and at least two eligible users, without the rating filter, always has a candidate. |
| `Matchmaking.BuildCandidates` | app.py:202-221 | The nested loops produce the candidate list. A pair is in it iff it is a candidate, and it has no repeats. |
| `Matchmaking.Pick` | app.py:226 | The drawn pair is one of the candidates, and every candidate is drawn by some roll. |
| `Percentiles.Insert` | app.py:60 | Inserting one entry adds exactly that entry. |
| `Percentiles.InsertSorted` | app.py:60 | Inserting into a list sorted by rating keeps it sorted. |
| `Percentiles.SortByElo` | app.py:60 | The sort is a permutation of its input and sorted by rating. |
| `Percentiles.SortStable` | app.py:60 | The sort is stable: the entries of each rating come out in their input order. |
| `Percentiles.Pct` | app.py:64 | A rank's percentile lies in [0, 100]. With more than one user, rank 0 gets 0. The last rank gets 100. |
| `Percentiles.PctIncreasing` | app.py:64 | A higher rank gets a strictly higher percentile. |
| `Percentiles.PercentileMap` | app.py:62-65 | After `k` loop steps the dictionary holds exactly the emails of the first `k` sorted users, each with a value in [0, 100]. |
| `Percentiles.PercentileMapAt` | app.py:62-65 | With unique emails, the user at sorted position `r` keeps the percentile of rank `r`. |
| `Percentiles.ComputePercentiles` | app.py:59-66 | Every input user gets exactly one percentile, and every value lies in [0, 100]. |
| `Percentiles.PercentileOfRank` | app.py:63-65 | The user at sorted position `r` has percentile `r / (N - 1) * 100`. |
| `Percentiles.PercentileExtremes` | app.py:63-65 | With more than one user the lowest-ranked gets 0. The highest-ranked gets 100, so a sole user gets 100. |
| `Percentiles.LowerEloLowerPercentile` | app.py:59-66 | A strictly lower rating gives a strictly lower percentile. |
| `Percentiles.TopPercentileHasTopElo` | app.py:59-66 | Whoever has percentile 100 has the highest rating. |
| `Percentiles.ThreeUsersExample` | app.py:59-66 | Ratings 1200, 1000 and 1400 give percentiles 50, 0 and 100. |
| `Percentiles.TiesKeepOrderExample` | app.py:60-65 | Two users with equal ratings get 0 and 100, in dictionary order. |
| `Percentiles.SoleUserExample` | app.py:64 | A single user gets 100. |
| `Percentiles.Band` | app.py:68-80 | The tier of index `k` is the one whose range holds `p`. Tiers 1 to 5 start at 50, 60, 70, 80 and 90, and each range ends below the next cut-off. |
| `Percentiles.BandMonotone` | app.py:68-80 | A higher percentile never gets a lower tier. |
| `Engine.ReplaceAt` | app.py:279 | `replace("@", "_")`: same length, every '@' becomes '_', every other character stays, and no '@' remains. |
| `Engine.PathJoin` | app.py:279 | POSIX `os.path.join` of two parts: an absolute name replaces the folder; otherwise the result starts with the folder, ends with the name, and is exactly one character longer than the two when a '/' must be inserted (a non-empty folder not ending in '/'), and exactly as long as the two otherwise. So it is the folder, that '/' if needed, then the name. |
| `Engine.UploadPath` | app.py:279 | The saved photo's path ends with the mapped address plus ".jpg". For an address not starting with '/', it is `uploads/` followed by that name. For an address starting with '/', it is that name alone, outside the upload folder. |
| `Engine.AbsoluteAddressEscapes` | app.py:279 | The address `/srv/x@nirmauni.ac.in` passes the registration test, and its photo path is `/srv/x_nirmauni.ac.in.jpg`, outside the upload folder. |
| `Engine.AddressExamples` | app.py:126 | The address test accepts an address in the university's domain and refuses another domain and the bare domain. |
| `Engine.Entries` | app.py:60 | The dictionary items in order, reduced to each user's email and rating. |
| `Engine.Store.constructor` | app.py:28-34 | The two stores start empty. |
| `Engine.Store.Register` | app.py:126-144 | Registration refuses a non-university address, then an already registered one, then a missing gender. Otherwise it adds the initial record (rating 1200, no photo, no vote times, 0 matches) at the end of the order. |
| `Engine.Store.Upload` | app.py:259-282 | A user without a photo gets the upload path, and then has a photo. A user with a photo keeps it. Nothing else changes. |
| `Engine.Store.PruneVoteTimes` | app.py:181-188 | The voter's vote times become the pruned list; nothing else changes. The step reports "blocked" iff 15 or more remain. |
| `Engine.Store.OfferPair` | app.py:190-226 | The outcome is waiting-for-uploads iff fewer than two users are eligible. It is all-rated iff no candidate remains. Otherwise it is the drawn candidate, which is untried and meets the rating filter. The voter's history is created if missing. |
| `Engine.Store.ApplyVote` | app.py:231-237 | Both users take the `update_elo` ratings for a left or right win and gain exactly one match each. The voter's history gains exactly the sorted pair at its end, and the voter's vote times gain `now`. Every other record and history is unchanged. With an expected score strictly between 0 and 1, the winner gains and the loser loses at most 32 points. |
| `Engine.Store.OfferAndVote` | app.py:190-253 | Pair selection, followed by the vote on the drawn pair when a button was pressed in the run. Without a press, users are unchanged. |
| `Engine.Store.VoteRun` | app.py:181-253 | One run of the voting block. It refuses iff the pruned list is full. Otherwise it offers as in pair selection, computed on the pruned dictionary. A press applies the vote to the drawn pair, so no voter's history ever repeats a pair. |
| `Engine.Store.Stats` | app.py:290-320 | Without a photo the page invites an upload. Below 6 matches it shows the count. Otherwise it shows the rating, the user's global percentile (in [0, 100]) and the matching tier. |
| `Engine.Store.StatsOrdered` | app.py:304-320 | Of two users with shown standings, the lower-rated one has the strictly lower percentile and no higher tier. |

## Left out

- Streamlit presentation (widgets, markdown, `st.rerun`, session state) is not modelled. Only the branch a run takes, and the pair it shows, are modelled.
- Reading and writing `users.json` and `votes.json` is left out. The model is the in-memory dictionaries during one run. A pruned vote-time list or a new empty history that the program saves only on a vote is kept in memory here. `RateLimit.RecentLater` shows that a prune never saved changes no later result.
- Image decoding, conversion and saving (PIL) and `os.makedirs` are left out. Upload stores only the path.
- `Engine.PathJoin`: only the POSIX rules are modelled, with '/' as the separator. Windows separators and drive letters are not, and neither is a name that is absolute there but not under POSIX.
- Login and SHA-256 password hashing are left out. The record stores the hash that registration is given.
- `Elo.UpdateElo`: the floating-point expected score `1 / (1 + 10 ** ((rb - ra) / 400))` is an input. That it is never an odd number of 64ths is argued above, not proved. The store's methods take it as a function `expected`. The rest of the update is exact real arithmetic, so float rounding inside `(1 - sa) - (1 - ea)` is not modelled.
- `Percentiles.ComputePercentiles`: percentiles are exact reals, not floats, and the display formatting to one or zero decimals is left out.
- `Matchmaking.Pick`: `random.choice` is a draw index `roll`. The uniform distribution is not modelled.
- Timestamps are whole seconds, not ISO-8601 strings parsed with `datetime.fromisoformat`.
- Races between concurrent requests are left out: each run is sequential.
