/** The team balancer of the `/teams` command (internal/commands/cmds_teams.go).

    Given the snapshot of active players, it refuses when there are fewer
    players than teams or when some player's skill is unset; otherwise it
    fixes near-equal team sizes and repeatedly shuffles an index arrangement,
    slices it into teams, scores the spread between the best and the worst
    team average, and keeps the best arrangement seen.  It stops at a spread
    of at most 20 or when the time budget runs out.

    The random source is `rolls`: one list of draws per shuffle, the draw for
    position `i` reduced modulo `i + 1` as the Fisher-Yates shuffle of
    `rand.Shuffle` does.  The 100 ms budget is the number of shuffles the
    caller supplies: the deadline is seen after the last of them.  Averages
    are exact reals where the source uses `float64`. */
module Teams {
  import opened Wrappers
  import opened Persistent

  /** A spread at or below this is a success (`maxTeamDiffAllowed`). */
  const MaxTeamDiffAllowed: real := 20.0
  /** The initial `bestArrangementDiff`. */
  const InitialBestDiff: real := 100.0
  /** The initial `maxAverage` and `minAverage` of each scoring pass. */
  const MaxAverageStart: real := 0.0
  const MinAverageStart: real := 100.0

  // ---------------------------------------------------------------------
  // Team sizes

  function Sum(s: seq<nat>): nat
  {
    if s == [] then 0 else Sum(s[..|s| - 1]) + s[|s| - 1]
  }

  /** The size of team `t`: the first `n % k` teams get one extra member. */
  function SizeOf(n: nat, k: nat, t: nat): nat
    requires k >= 1
  {
    if n % k > t then n / k + 1 else n / k
  }

  lemma {:induction false} SizesPrefixSum(n: nat, k: nat, t: nat)
    requires 1 <= k && t <= k
    ensures Sum(seq(t, i requires 0 <= i < t => SizeOf(n, k, i))) ==
            t * (n / k) + (if t < n % k then t else n % k)
  {
    if t > 0 {
      SizesPrefixSum(n, k, t - 1);
      var s := seq(t, i requires 0 <= i < t => SizeOf(n, k, i));
      assert s[..t - 1] == seq(t - 1, i requires 0 <= i < t - 1 => SizeOf(n, k, i));
      var q := n / k;
      assert Sum(s) == Sum(s[..t - 1]) + s[t - 1];
      assert s[t - 1] == if n % k > t - 1 then q + 1 else q;
      assert (t - 1) * q + q == t * q;
    }
  }

  /** `teamSizes`: `k` sizes that add up to `n`, larger teams first, no two
      differing by more than one. */
  function TeamSizes(n: nat, k: nat): (sizes: seq<nat>)
    requires k >= 1
    ensures |sizes| == k
    ensures Sum(sizes) == n
    ensures forall s, t :: 0 <= s <= t < k ==> sizes[t] <= sizes[s] <= sizes[t] + 1
    ensures n >= k ==> forall t :: 0 <= t < k ==> sizes[t] >= 1
  {
    SizesPrefixSum(n, k, k);
    assert n == k * (n / k) + n % k;
    seq(k, i requires 0 <= i < k => SizeOf(n, k, i))
  }

  /** Where team `t` starts in the arrangement. */
  function Offset(sizes: seq<nat>, t: nat): nat
    requires t <= |sizes|
  {
    Sum(sizes[..t])
  }

  lemma {:induction false} SumOfPrefixBounded(s: seq<nat>, j: nat)
    requires j <= |s|
    ensures Sum(s[..j]) <= Sum(s)
    decreases |s|
  {
    if j < |s| {
      assert s[..|s| - 1][..j] == s[..j];
      SumOfPrefixBounded(s[..|s| - 1], j);
    } else {
      assert s[..j] == s;
    }
  }

  /** Each team starts where the previous one ends, and ends within the arrangement. */
  lemma OffsetStep(sizes: seq<nat>, t: nat)
    requires t < |sizes|
    ensures Offset(sizes, t + 1) == Offset(sizes, t) + sizes[t]
    ensures Offset(sizes, t + 1) <= Sum(sizes)
  {
    assert sizes[..t + 1][..t] == sizes[..t];
    SumOfPrefixBounded(sizes, t + 1);
  }

  // ---------------------------------------------------------------------
  // Arrangements and the shuffle

  function Identity(n: nat): seq<int>
  {
    seq(n, i requires 0 <= i < n => i)
  }

  /** `s` holds each index `0 .. n-1` exactly once. */
  ghost predicate IsPermutation(s: seq<int>, n: nat)
  {
    multiset(s) == multiset(Identity(n))
  }

  predicate IndicesBelow(s: seq<int>, n: nat)
  {
    forall i :: 0 <= i < |s| ==> 0 <= s[i] < n
  }

  lemma SameElementsBelow(a: seq<int>, b: seq<int>, n: nat)
    requires multiset(a) == multiset(b) && IndicesBelow(a, n)
    ensures |b| == |a| && IndicesBelow(b, n)
  {
    assert |multiset(a)| == |a| && |multiset(b)| == |b|;
    forall i | 0 <= i < |b|
      ensures 0 <= b[i] < n
    {
      assert b[i] in multiset(b);
      assert b[i] in multiset(a);
    }
  }

  lemma PermutationIndicesBelow(s: seq<int>, n: nat)
    requires IsPermutation(s, n)
    ensures |s| == n && IndicesBelow(s, n)
  {
    assert IndicesBelow(Identity(n), n);
    SameElementsBelow(Identity(n), s, n);
  }

  function Swap(s: seq<int>, i: nat, j: nat): (r: seq<int>)
    requires i < |s| && j < |s|
    ensures |r| == |s|
  {
    s[i := s[j]][j := s[i]]
  }

  lemma SwapPermutes(s: seq<int>, i: nat, j: nat)
    requires i < |s| && j < |s|
    ensures multiset(Swap(s, i, j)) == multiset(s)
  {
  }

  /** The draw for one step of a shuffle, reduced into `[0, bound)`. */
  function Pick(roll: seq<nat>, step: nat, bound: nat): (j: nat)
    requires bound >= 1
    ensures j < bound
  {
    (if step < |roll| then roll[step] else 0) % bound
  }

  /** Fisher-Yates from position `i - 1` down to 1: swap each position with
      one drawn at or below it. */
  function ShuffleDown(s: seq<int>, roll: seq<nat>, i: nat): (r: seq<int>)
    requires i <= |s|
    ensures |r| == |s|
    decreases i
  {
    if i <= 1 then s else ShuffleDown(Swap(s, i - 1, Pick(roll, |s| - i, i)), roll, i - 1)
  }

  function Shuffle(s: seq<int>, roll: seq<nat>): (r: seq<int>)
    ensures |r| == |s|
  {
    ShuffleDown(s, roll, |s|)
  }

  /** Every step of the shuffle is a swap, so it only reorders. */
  lemma {:induction false} ShuffleDownPermutes(s: seq<int>, roll: seq<nat>, i: nat)
    requires i <= |s|
    ensures multiset(ShuffleDown(s, roll, i)) == multiset(s)
    decreases i
  {
    if i > 1 {
      var j := Pick(roll, |s| - i, i);
      SwapPermutes(s, i - 1, j);
      ShuffleDownPermutes(Swap(s, i - 1, j), roll, i - 1);
    }
  }

  lemma ShufflePermutes(s: seq<int>, roll: seq<nat>)
    ensures multiset(Shuffle(s, roll)) == multiset(s)
  {
    ShuffleDownPermutes(s, roll, |s|);
  }

  // ---------------------------------------------------------------------
  // Scoring an arrangement

  /** An arrangement that can be sliced by `sizes`: it is exactly as long as
      all the teams together, every team is non-empty and every entry is a
      player index. */
  predicate Fits(players: seq<Player>, sizes: seq<nat>, arrangement: seq<int>)
  {
    Sum(sizes) == |arrangement| &&
    (forall t :: 0 <= t < |sizes| ==> sizes[t] >= 1) &&
    IndicesBelow(arrangement, |players|)
  }

  function SkillSum(players: seq<Player>, team: seq<int>): int
    requires IndicesBelow(team, |players|)
  {
    if team == [] then 0 else SkillSum(players, team[..|team| - 1]) + players[team[|team| - 1]].skill
  }

  /** The player indices of team `t`: its run of the arrangement. */
  function Members(players: seq<Player>, sizes: seq<nat>, arrangement: seq<int>, t: nat): (team: seq<int>)
    requires Fits(players, sizes, arrangement) && t < |sizes|
    ensures |team| == sizes[t] && IndicesBelow(team, |players|)
  {
    OffsetStep(sizes, t);
    arrangement[Offset(sizes, t)..Offset(sizes, t) + sizes[t]]
  }

  /** A skill sum over a team size, in floating point. */
  function Mean(total: int, count: nat): real
    requires count > 0
  {
    total as real / count as real
  }

  function Average(players: seq<Player>, sizes: seq<nat>, arrangement: seq<int>, t: nat): real
    requires Fits(players, sizes, arrangement) && t < |sizes|
  {
    Mean(SkillSum(players, Members(players, sizes, arrangement, t)), sizes[t])
  }

  /** `averages`: each team's skill sum over its size. */
  function Averages(players: seq<Player>, sizes: seq<nat>, arrangement: seq<int>): (avgs: seq<real>)
    requires Fits(players, sizes, arrangement)
    ensures |avgs| == |sizes|
  {
    seq(|sizes|, t requires 0 <= t < |sizes| => Average(players, sizes, arrangement, t))
  }

  /** `maxAverage`: the running maximum, starting from `start`. */
  function MaxFrom(avgs: seq<real>, start: real): real
  {
    if avgs == [] then start
    else
      var m := MaxFrom(avgs[..|avgs| - 1], start);
      if avgs[|avgs| - 1] > m then avgs[|avgs| - 1] else m
  }

  /** `minAverage`: the running minimum, starting from `start`. */
  function MinFrom(avgs: seq<real>, start: real): real
  {
    if avgs == [] then start
    else
      var m := MinFrom(avgs[..|avgs| - 1], start);
      if avgs[|avgs| - 1] < m then avgs[|avgs| - 1] else m
  }

  /** `averageDiff` of one scoring pass. */
  function Gap(avgs: seq<real>): real
  {
    MaxFrom(avgs, MaxAverageStart) - MinFrom(avgs, MinAverageStart)
  }

  // ---------------------------------------------------------------------
  // The search

  /** `bestArrangementDiff`, `bestArrangement` and `bestAverages`. */
  datatype Best = Best(diff: real, arrangement: seq<int>, averages: seq<real>)

  /** The best arrangement the search keeps, from shuffle `k` on.  `best` is
      the best so far; `None` means nothing yet (no sentinel). */
  function Search(players: seq<Player>, sizes: seq<nat>, rolls: seq<seq<nat>>, k: nat,
                  arrangement: seq<int>, best: Option<Best>): Best
    requires k < |rolls| && Fits(players, sizes, arrangement)
    decreases |rolls| - k
  {
    var next := Shuffle(arrangement, rolls[k]);
    ShufflePermutes(arrangement, rolls[k]);
    SameElementsBelow(arrangement, next, |players|);
    var avgs := Averages(players, sizes, next);
    var gap := Gap(avgs);
    var kept := if best.None? || gap < best.value.diff then Best(gap, next, avgs) else best.value;
    if gap <= MaxTeamDiffAllowed || k + 1 == |rolls| then kept
    else Search(players, sizes, rolls, k + 1, next, Some(kept))
  }

  /** What the command replies. */
  datatype Reply =
    | NotEnoughPlayers(playerCount: nat, numTeams: nat)
    | UnsetRanks(names: seq<string>)
    | Teams(found: bool, gap: real, averages: seq<real>, teams: seq<seq<Player>>)

  /** The names of the players whose skill is unset, in input order. */
  function UnsetNames(players: seq<Player>): seq<string>
  {
    if players == [] then []
    else
      UnsetNames(players[..|players| - 1]) +
      (if players[|players| - 1].skill == UnsetSkill then [players[|players| - 1].name] else [])
  }

  /** The players of every team of an arrangement, team by team. */
  function TeamsOf(players: seq<Player>, sizes: seq<nat>, arrangement: seq<int>): (teams: seq<seq<Player>>)
    requires Fits(players, sizes, arrangement)
    ensures |teams| == |sizes|
  {
    seq(|sizes|, t requires 0 <= t < |sizes| => Select(players, Members(players, sizes, arrangement, t)))
  }

  /** The whole command on a snapshot of active players.  `sentinel` is the
      initial `bestArrangementDiff`, with an all-zero arrangement and zero
      averages beside it; `None` starts with no best at all. */
  function Balance(players: seq<Player>, numTeams: nat, rolls: seq<seq<nat>>, sentinel: Option<real>): Reply
    requires numTeams >= 1 && |rolls| >= 1
  {
    var n := |players|;
    if n < numTeams then NotEnoughPlayers(n, numTeams)
    else if UnsetNames(players) != [] then UnsetRanks(UnsetNames(players))
    else
      var sizes := TeamSizes(n, numTeams);
      assert IndicesBelow(Identity(n), n);
      var start := if sentinel.None? then None else Some(Sentinel(n, numTeams).(diff := sentinel.value));
      var best := Search(players, sizes, rolls, 0, Identity(n), start);
      SearchKeepsFit(players, sizes, rolls, 0, Identity(n), start);
      Teams(best.diff <= MaxTeamDiffAllowed, best.diff, best.averages, TeamsOf(players, sizes, best.arrangement))
  }

  /** The starting best of the source: spread 100, every slot player 0,
      every average 0. */
  function Sentinel(n: nat, numTeams: nat): Best
  {
    Best(InitialBestDiff, seq(n, _ => 0), seq(numTeams, _ => 0.0))
  }

  /** The command as written: the search starts from the sentinel 100. */
  function CmdTeams(players: seq<Player>, numTeams: nat, rolls: seq<seq<nat>>): Reply
    requires numTeams >= 1 && |rolls| >= 1
  {
    Balance(players, numTeams, rolls, Some(InitialBestDiff))
  }

  /** The command as evidently intended: the first arrangement scored is
      always kept. */
  function CmdTeamsIntended(players: seq<Player>, numTeams: nat, rolls: seq<seq<nat>>): Reply
    requires numTeams >= 1 && |rolls| >= 1
  {
    Balance(players, numTeams, rolls, None)
  }

  // ---------------------------------------------------------------------
  // Properties of the search

  /** What the search returns is either the starting best, unchanged, or an
      arrangement it scored: a permutation (when it started from one) with its
      own averages and spread, strictly better than the start.  In every case
      it never gets worse than the start and still fits the team sizes. */
  lemma {:induction false} SearchKeepsFit(players: seq<Player>, sizes: seq<nat>, rolls: seq<seq<nat>>,
                                          k: nat, arrangement: seq<int>, best: Option<Best>)
    requires k < |rolls| && Fits(players, sizes, arrangement)
    requires best.Some? ==> Fits(players, sizes, best.value.arrangement) && |best.value.averages| == |sizes|
    ensures var r := Search(players, sizes, rolls, k, arrangement, best);
      Fits(players, sizes, r.arrangement) && |r.averages| == |sizes| &&
      (best.Some? ==> r.diff <= best.value.diff) &&
      ((best.Some? && r == best.value) ||
       ((best.Some? ==> r.diff < best.value.diff) &&
        r.averages == Averages(players, sizes, r.arrangement) && r.diff == Gap(r.averages) &&
        (IsPermutation(arrangement, |players|) ==> IsPermutation(r.arrangement, |players|))))
    decreases |rolls| - k
  {
    var next := Shuffle(arrangement, rolls[k]);
    ShufflePermutes(arrangement, rolls[k]);
    SameElementsBelow(arrangement, next, |players|);
    var avgs := Averages(players, sizes, next);
    var gap := Gap(avgs);
    var kept := if best.None? || gap < best.value.diff then Best(gap, next, avgs) else best.value;
    if !(gap <= MaxTeamDiffAllowed || k + 1 == |rolls|) {
      SearchKeepsFit(players, sizes, rolls, k + 1, next, Some(kept));
    }
  }

  /** The spreads the search scores, one per shuffle, until it stops. */
  function Observed(players: seq<Player>, sizes: seq<nat>, rolls: seq<seq<nat>>, k: nat,
                    arrangement: seq<int>): seq<real>
    requires k < |rolls| && Fits(players, sizes, arrangement)
    decreases |rolls| - k
  {
    var next := Shuffle(arrangement, rolls[k]);
    ShufflePermutes(arrangement, rolls[k]);
    SameElementsBelow(arrangement, next, |players|);
    var gap := Gap(Averages(players, sizes, next));
    if gap <= MaxTeamDiffAllowed || k + 1 == |rolls| then [gap]
    else [gap] + Observed(players, sizes, rolls, k + 1, next)
  }

  /** `x` is at most every element of `s`. */
  predicate AtMostAll(x: real, s: seq<real>)
  {
    forall i :: 0 <= i < |s| ==> x <= s[i]
  }

  /** `x` is one of the elements of `s`. */
  predicate OccursIn(x: real, s: seq<real>)
  {
    exists i :: 0 <= i < |s| && x == s[i]
  }

  /** Every element of `s` is above the success threshold. */
  predicate AllTooWide(s: seq<real>)
  {
    forall i :: 0 <= i < |s| ==> s[i] > MaxTeamDiffAllowed
  }

  /** The search stops at the first spread of at most 20, or when the draws
      (the time budget) run out. */
  lemma {:induction false} SearchStopsAtFirstSmallGap(players: seq<Player>, sizes: seq<nat>, rolls: seq<seq<nat>>,
                                                      k: nat, arrangement: seq<int>)
    requires k < |rolls| && Fits(players, sizes, arrangement)
    ensures 1 <= |Observed(players, sizes, rolls, k, arrangement)| <= |rolls| - k
    ensures var obs := Observed(players, sizes, rolls, k, arrangement);
      AllTooWide(obs[..|obs| - 1]) &&
      (|obs| < |rolls| - k ==> obs[|obs| - 1] <= MaxTeamDiffAllowed)
    decreases |rolls| - k
  {
    var next := Shuffle(arrangement, rolls[k]);
    ShufflePermutes(arrangement, rolls[k]);
    SameElementsBelow(arrangement, next, |players|);
    var gap := Gap(Averages(players, sizes, next));
    var obs := Observed(players, sizes, rolls, k, arrangement);
    if !(gap <= MaxTeamDiffAllowed || k + 1 == |rolls|) {
      SearchStopsAtFirstSmallGap(players, sizes, rolls, k + 1, next);
      var rest := Observed(players, sizes, rolls, k + 1, next);
      assert obs == [gap] + rest;
      assert obs[..|obs| - 1] == [gap] + rest[..|rest| - 1];
    }
  }

  /** `AtMostAll` and `OccursIn` on a list with one more spread in front. */
  lemma ConsSpreads(x: real, gap: real, rest: seq<real>)
    ensures AtMostAll(x, [gap] + rest) <==> x <= gap && AtMostAll(x, rest)
    ensures OccursIn(x, [gap] + rest) <==> x == gap || OccursIn(x, rest)
  {
    var obs := [gap] + rest;
    assert obs[0] == gap;
    assert forall i :: 0 <= i < |rest| ==> rest[i] == obs[i + 1];
    assert forall i :: 0 < i < |obs| ==> obs[i] == rest[i - 1];
    if OccursIn(x, obs) && x != gap {
      var i :| 0 <= i < |obs| && x == obs[i];
      assert x == rest[i - 1];
    }
    if OccursIn(x, rest) {
      var i :| 0 <= i < |rest| && x == rest[i];
      assert x == obs[i + 1];
    }
  }

  /** The search keeps the smallest spread it saw, unless the start was at
      least as good. */
  lemma {:induction false} SearchKeepsSmallestGap(players: seq<Player>, sizes: seq<nat>, rolls: seq<seq<nat>>,
                                                  k: nat, arrangement: seq<int>, best: Option<Best>)
    requires k < |rolls| && Fits(players, sizes, arrangement)
    ensures var obs := Observed(players, sizes, rolls, k, arrangement);
      var r := Search(players, sizes, rolls, k, arrangement, best);
      (best.Some? ==> r.diff <= best.value.diff) &&
      AtMostAll(r.diff, obs) &&
      ((best.Some? && r == best.value) || OccursIn(r.diff, obs))
    decreases |rolls| - k
  {
    var next := Shuffle(arrangement, rolls[k]);
    ShufflePermutes(arrangement, rolls[k]);
    SameElementsBelow(arrangement, next, |players|);
    var avgs := Averages(players, sizes, next);
    var gap := Gap(avgs);
    var kept := if best.None? || gap < best.value.diff then Best(gap, next, avgs) else best.value;
    var r := Search(players, sizes, rolls, k, arrangement, best);
    if gap <= MaxTeamDiffAllowed || k + 1 == |rolls| {
      ConsSpreads(r.diff, gap, []);
      assert [gap] + [] == Observed(players, sizes, rolls, k, arrangement);
    } else {
      SearchKeepsSmallestGap(players, sizes, rolls, k + 1, next, Some(kept));
      ConsSpreads(r.diff, gap, Observed(players, sizes, rolls, k + 1, next));
    }
  }

  /** Success is reported exactly when the last spread the search saw was
      small enough, provided the start was not already. */
  lemma SearchFoundIffLastGapSmall(players: seq<Player>, sizes: seq<nat>, rolls: seq<seq<nat>>,
                                   arrangement: seq<int>, best: Option<Best>)
    requires |rolls| >= 1 && Fits(players, sizes, arrangement)
    requires best.None? || best.value.diff > MaxTeamDiffAllowed
    ensures |Observed(players, sizes, rolls, 0, arrangement)| >= 1
    ensures var obs := Observed(players, sizes, rolls, 0, arrangement);
      Search(players, sizes, rolls, 0, arrangement, best).diff <= MaxTeamDiffAllowed <==>
      obs[|obs| - 1] <= MaxTeamDiffAllowed
  {
    SearchStopsAtFirstSmallGap(players, sizes, rolls, 0, arrangement);
    SearchKeepsSmallestGap(players, sizes, rolls, 0, arrangement, best);
    var obs := Observed(players, sizes, rolls, 0, arrangement);
    var r := Search(players, sizes, rolls, 0, arrangement, best);
    if obs[|obs| - 1] > MaxTeamDiffAllowed {
      forall i | 0 <= i < |obs|
        ensures obs[i] > MaxTeamDiffAllowed
      {
        if i < |obs| - 1 {
          assert obs[..|obs| - 1][i] == obs[i];
        }
      }
    }
  }

  // ---------------------------------------------------------------------
  // What a spread measures

  /** Every skill is set and within the bounds the commands accept. */
  predicate SkillsInRange(players: seq<Player>)
  {
    forall i :: 0 <= i < |players| ==> MinSkill <= players[i].skill <= MaxSkill
  }

  lemma {:induction false} SkillSumBounds(players: seq<Player>, team: seq<int>)
    requires IndicesBelow(team, |players|) && SkillsInRange(players)
    ensures MinSkill <= SkillSum(players, team) <= MaxSkill * |team|
  {
    if team != [] {
      SkillSumBounds(players, team[..|team| - 1]);
    }
  }

  lemma AveragesInRange(players: seq<Player>, sizes: seq<nat>, arrangement: seq<int>)
    requires Fits(players, sizes, arrangement) && SkillsInRange(players)
    ensures forall t :: 0 <= t < |sizes| ==>
      0.0 <= Averages(players, sizes, arrangement)[t] <= MaxSkill as real
  {
    forall t | 0 <= t < |sizes|
      ensures 0.0 <= Averages(players, sizes, arrangement)[t] <= MaxSkill as real
    {
      var team := Members(players, sizes, arrangement, t);
      SkillSumBounds(players, team);
      var sum := SkillSum(players, team) as real;
      var size := sizes[t] as real;
      assert sum <= MaxSkill as real * size;
      assert sum / size <= MaxSkill as real;
    }
  }

  lemma {:induction false} MaxFromBounds(avgs: seq<real>, start: real)
    ensures start <= MaxFrom(avgs, start)
    ensures forall i :: 0 <= i < |avgs| ==> avgs[i] <= MaxFrom(avgs, start)
    ensures MaxFrom(avgs, start) == start || exists i :: 0 <= i < |avgs| && MaxFrom(avgs, start) == avgs[i]
  {
    if avgs != [] {
      var init := avgs[..|avgs| - 1];
      MaxFromBounds(init, start);
      if MaxFrom(init, start) != start && MaxFrom(avgs, start) != avgs[|avgs| - 1] {
        var i :| 0 <= i < |init| && MaxFrom(init, start) == init[i];
        assert MaxFrom(avgs, start) == avgs[i];
      }
    }
  }

  lemma {:induction false} MinFromBounds(avgs: seq<real>, start: real)
    ensures MinFrom(avgs, start) <= start
    ensures forall i :: 0 <= i < |avgs| ==> MinFrom(avgs, start) <= avgs[i]
    ensures MinFrom(avgs, start) == start || exists i :: 0 <= i < |avgs| && MinFrom(avgs, start) == avgs[i]
  {
    if avgs != [] {
      var init := avgs[..|avgs| - 1];
      MinFromBounds(init, start);
      if MinFrom(init, start) != start && MinFrom(avgs, start) != avgs[|avgs| - 1] {
        var i :| 0 <= i < |init| && MinFrom(init, start) == init[i];
        assert MinFrom(avgs, start) == avgs[i];
      }
    }
  }

  /** With every average within the skill bounds, the spread is exactly the
      largest difference between two teams' averages. */
  lemma GapIsLargestDifference(avgs: seq<real>)
    requires |avgs| >= 1
    requires forall t :: 0 <= t < |avgs| ==> 0.0 <= avgs[t] <= MaxSkill as real
    ensures forall s, t :: 0 <= s < |avgs| && 0 <= t < |avgs| ==> avgs[s] - avgs[t] <= Gap(avgs)
    ensures exists s, t :: 0 <= s < |avgs| && 0 <= t < |avgs| && Gap(avgs) == avgs[s] - avgs[t]
    ensures 0.0 <= Gap(avgs) <= MaxSkill as real
  {
    MaxFromBounds(avgs, MaxAverageStart);
    MinFromBounds(avgs, MinAverageStart);
    var hi := MaxFrom(avgs, MaxAverageStart);
    var lo := MinFrom(avgs, MinAverageStart);
    var s := if hi == MaxAverageStart then 0 else (var i :| 0 <= i < |avgs| && hi == avgs[i]; i);
    var t := if lo == MinAverageStart then 0 else (var i :| 0 <= i < |avgs| && lo == avgs[i]; i);
    assert hi == avgs[s];
    assert lo == avgs[t];
  }

  // ---------------------------------------------------------------------
  // The teams partition the players

  function Flatten<T>(ss: seq<seq<T>>): seq<T>
  {
    if ss == [] then [] else Flatten(ss[..|ss| - 1]) + ss[|ss| - 1]
  }

  /** The players an index list names, in order. */
  function Select(players: seq<Player>, indices: seq<int>): (r: seq<Player>)
    requires IndicesBelow(indices, |players|)
    ensures |r| == |indices|
  {
    seq(|indices|, i requires 0 <= i < |indices| => players[indices[i]])
  }

  lemma {:induction false} TeamsPrefixCoverArrangement(players: seq<Player>, sizes: seq<nat>,
                                                       arrangement: seq<int>, t: nat)
    requires Fits(players, sizes, arrangement) && t <= |sizes|
    ensures Offset(sizes, t) <= |arrangement|
    ensures Flatten(TeamsOf(players, sizes, arrangement)[..t]) ==
            Select(players, arrangement[..Offset(sizes, t)])
  {
    SumOfPrefixBounded(sizes, t);
    if t > 0 {
      TeamsPrefixCoverArrangement(players, sizes, arrangement, t - 1);
      OffsetStep(sizes, t - 1);
      var teams := TeamsOf(players, sizes, arrangement);
      assert teams[..t][..t - 1] == teams[..t - 1];
      assert Select(players, arrangement[..Offset(sizes, t)]) ==
             Select(players, arrangement[..Offset(sizes, t - 1)]) + teams[t - 1];
    }
  }

  /** Reading the teams one after another gives back the arrangement. */
  lemma TeamsCoverArrangement(players: seq<Player>, sizes: seq<nat>, arrangement: seq<int>)
    requires Fits(players, sizes, arrangement)
    ensures Flatten(TeamsOf(players, sizes, arrangement)) == Select(players, arrangement)
  {
    TeamsPrefixCoverArrangement(players, sizes, arrangement, |sizes|);
    assert TeamsOf(players, sizes, arrangement)[..|sizes|] == TeamsOf(players, sizes, arrangement);
    assert sizes[..|sizes|] == sizes;
    assert arrangement[..Offset(sizes, |sizes|)] == arrangement;
  }

  lemma SelectAppend(players: seq<Player>, x: seq<int>, y: seq<int>)
    requires IndicesBelow(x, |players|) && IndicesBelow(y, |players|)
    ensures IndicesBelow(x + y, |players|)
    ensures Select(players, x + y) == Select(players, x) + Select(players, y)
  {
  }

  lemma RemoveAt(b: seq<int>, j: nat)
    requires j < |b|
    ensures b == b[..j] + [b[j]] + b[j + 1..]
    ensures multiset(b[..j] + b[j + 1..]) == multiset(b) - multiset{b[j]}
  {
    assert b == b[..j] + [b[j]] + b[j + 1..];
  }

  /** Taking one index out of a selection takes its player out. */
  lemma SelectWithout(players: seq<Player>, b: seq<int>, j: nat)
    requires j < |b| && IndicesBelow(b, |players|)
    ensures IndicesBelow(b[..j] + b[j + 1..], |players|)
    ensures multiset(Select(players, b)) == multiset(Select(players, b[..j] + b[j + 1..])) + multiset{players[b[j]]}
  {
    RemoveAt(b, j);
    SelectAppend(players, b[..j], b[j + 1..]);
    SelectAppend(players, b[..j], [b[j]]);
    SelectAppend(players, b[..j] + [b[j]], b[j + 1..]);
  }

  /** Matching the last index of `a` with an equal index of `b`. */
  lemma SelectSameLast(players: seq<Player>, a: seq<int>, b: seq<int>, j: nat)
    requires a != [] && j < |b| && b[j] == a[|a| - 1]
    requires IndicesBelow(a, |players|) && IndicesBelow(b, |players|)
    requires multiset(Select(players, a[..|a| - 1])) == multiset(Select(players, b[..j] + b[j + 1..]))
    ensures multiset(Select(players, a)) == multiset(Select(players, b))
  {
    assert a == a[..|a| - 1] + [a[|a| - 1]];
    SelectAppend(players, a[..|a| - 1], [a[|a| - 1]]);
    SelectWithout(players, b, j);
  }

  /** Where the last index of `a` sits in a rearrangement `b` of it. */
  lemma MatchLast(a: seq<int>, b: seq<int>) returns (j: nat)
    requires a != [] && multiset(a) == multiset(b)
    ensures j < |b| && b[j] == a[|a| - 1]
    ensures multiset(a[..|a| - 1]) == multiset(b[..j] + b[j + 1..])
  {
    var x := a[|a| - 1];
    assert a == a[..|a| - 1] + [x];
    assert x in multiset(b);
    j :| 0 <= j < |b| && b[j] == x;
    RemoveAt(b, j);
  }

  lemma {:induction false} SelectSameIndices(players: seq<Player>, a: seq<int>, b: seq<int>)
    requires multiset(a) == multiset(b) && IndicesBelow(a, |players|)
    ensures IndicesBelow(b, |players|)
    ensures multiset(Select(players, a)) == multiset(Select(players, b))
    decreases |a|
  {
    SameElementsBelow(a, b, |players|);
    if a != [] {
      var j := MatchLast(a, b);
      SelectSameIndices(players, a[..|a| - 1], b[..j] + b[j + 1..]);
      SelectSameLast(players, a, b, j);
    } else {
      assert b == [];
    }
  }

  /** A permutation of the indices names every player exactly once. */
  lemma SelectPermutation(players: seq<Player>, arrangement: seq<int>)
    requires IsPermutation(arrangement, |players|)
    ensures IndicesBelow(arrangement, |players|)
    ensures multiset(Select(players, arrangement)) == multiset(players)
  {
    assert IndicesBelow(Identity(|players|), |players|);
    SelectSameIndices(players, Identity(|players|), arrangement);
    assert Select(players, Identity(|players|)) == players;
  }

  // ---------------------------------------------------------------------
  // The replies

  lemma {:induction false} UnsetNamesEmptyIff(players: seq<Player>)
    ensures UnsetNames(players) == [] <==> forall i :: 0 <= i < |players| ==> players[i].skill != UnsetSkill
  {
    if players != [] {
      var init := players[..|players| - 1];
      UnsetNamesEmptyIff(init);
      if UnsetNames(players) == [] {
        forall i | 0 <= i < |players|
          ensures players[i].skill != UnsetSkill
        {
          if i < |init| {
            assert players[i] == init[i];
          }
        }
      }
    }
  }

  /** The three outcomes of the command and when each happens; on teams,
      there are as many as requested, sized by `TeamSizes`, and success is
      reported exactly when the kept spread is at most 20. */
  lemma BalanceOutcomes(players: seq<Player>, numTeams: nat, rolls: seq<seq<nat>>, sentinel: Option<real>)
    requires numTeams >= 1 && |rolls| >= 1
    ensures var reply := Balance(players, numTeams, rolls, sentinel);
      (reply.NotEnoughPlayers? <==> |players| < numTeams) &&
      (reply.UnsetRanks? <==> |players| >= numTeams && exists i :: 0 <= i < |players| && players[i].skill == UnsetSkill) &&
      (reply.Teams? ==>
         |reply.teams| == numTeams && |reply.averages| == numTeams &&
         (forall t :: 0 <= t < numTeams ==> |reply.teams[t]| == TeamSizes(|players|, numTeams)[t]) &&
         (reply.found <==> reply.gap <= MaxTeamDiffAllowed))
  {
    UnsetNamesEmptyIff(players);
    if |players| >= numTeams && UnsetNames(players) == [] {
      var n := |players|;
      var sizes := TeamSizes(n, numTeams);
      assert IndicesBelow(Identity(n), n);
      var start := if sentinel.None? then None else Some(Sentinel(n, numTeams).(diff := sentinel.value));
      SearchKeepsFit(players, sizes, rolls, 0, Identity(n), start);
    }
  }

  /** The skill total of a team of players. */
  function TotalSkill(team: seq<Player>): int
  {
    if team == [] then 0 else TotalSkill(team[..|team| - 1]) + team[|team| - 1].skill
  }

  lemma {:induction false} TotalSkillOfSelect(players: seq<Player>, team: seq<int>)
    requires IndicesBelow(team, |players|)
    ensures TotalSkill(Select(players, team)) == SkillSum(players, team)
  {
    if team != [] {
      var init := team[..|team| - 1];
      TotalSkillOfSelect(players, init);
      assert Select(players, team)[..|team| - 1] == Select(players, init);
    }
  }

  /** A permutation sliced into teams: every player is on exactly one team,
      each average is its team's skill total over its size, and the spread
      is the largest difference between two teams' averages. */
  lemma ArrangedTeams(players: seq<Player>, sizes: seq<nat>, arrangement: seq<int>)
    requires Fits(players, sizes, arrangement) && IsPermutation(arrangement, |players|)
    requires SkillsInRange(players) && |sizes| >= 1
    ensures var teams := TeamsOf(players, sizes, arrangement);
      var avgs := Averages(players, sizes, arrangement);
      multiset(Flatten(teams)) == multiset(players) &&
      (forall t :: 0 <= t < |sizes| ==> avgs[t] == TotalSkill(teams[t]) as real / |teams[t]| as real) &&
      (forall s, t :: 0 <= s < |sizes| && 0 <= t < |sizes| ==> avgs[s] - avgs[t] <= Gap(avgs)) &&
      (exists s, t :: 0 <= s < |sizes| && 0 <= t < |sizes| && Gap(avgs) == avgs[s] - avgs[t])
  {
    var teams := TeamsOf(players, sizes, arrangement);
    TeamsCoverArrangement(players, sizes, arrangement);
    SelectPermutation(players, arrangement);
    forall t | 0 <= t < |sizes|
      ensures Averages(players, sizes, arrangement)[t] == TotalSkill(teams[t]) as real / |teams[t]| as real
    {
      TotalSkillOfSelect(players, Members(players, sizes, arrangement, t));
    }
    AveragesInRange(players, sizes, arrangement);
    GapIsLargestDifference(Averages(players, sizes, arrangement));
  }

  /** As evidently intended, a teams reply splits the players: every player is
      on exactly one team, each average is that team's, and the reported
      spread is the largest difference between two teams' averages. */
  lemma IntendedTeamsPartitionPlayers(players: seq<Player>, numTeams: nat, rolls: seq<seq<nat>>)
    requires numTeams >= 1 && |rolls| >= 1 && SkillsInRange(players)
    ensures var reply := CmdTeamsIntended(players, numTeams, rolls);
      (reply.Teams? <==> |players| >= numTeams) &&
      (reply.Teams? ==> |reply.teams| == numTeams && |reply.averages| == numTeams)
    ensures var reply := CmdTeamsIntended(players, numTeams, rolls);
      (reply.Teams? ==>
        multiset(Flatten(reply.teams)) == multiset(players) &&
        (forall t :: 0 <= t < numTeams ==>
           reply.averages[t] == TotalSkill(reply.teams[t]) as real / |reply.teams[t]| as real) &&
        (forall s, t :: 0 <= s < numTeams && 0 <= t < numTeams ==> reply.averages[s] - reply.averages[t] <= reply.gap) &&
        (exists s, t :: 0 <= s < numTeams && 0 <= t < numTeams && reply.gap == reply.averages[s] - reply.averages[t]))
  {
    var n := |players|;
    assert UnsetNames(players) == [] by {
      UnsetNamesEmptyIff(players);
    }
    if n >= numTeams {
      var sizes := TeamSizes(n, numTeams);
      assert IndicesBelow(Identity(n), n);
      SearchKeepsFit(players, sizes, rolls, 0, Identity(n), None);
      var best := Search(players, sizes, rolls, 0, Identity(n), None);
      ArrangedTeams(players, sizes, best.arrangement);
    }
  }

  // ---------------------------------------------------------------------
  // The sentinel start, as written

  /** The sentinel arrangement names the first player in every slot and
      scores every team at zero. */
  lemma SentinelTeams(players: seq<Player>, sizes: seq<nat>, numTeams: nat)
    requires |sizes| == numTeams && Fits(players, sizes, Sentinel(|players|, numTeams).arrangement)
    ensures var teams := TeamsOf(players, sizes, Sentinel(|players|, numTeams).arrangement);
      forall t, m :: 0 <= t < numTeams && 0 <= m < |teams[t]| ==> teams[t][m] == players[0]
  {
    var teams := TeamsOf(players, sizes, Sentinel(|players|, numTeams).arrangement);
    forall t, m | 0 <= t < numTeams && 0 <= m < |teams[t]|
      ensures teams[t][m] == players[0]
    {
      OffsetStep(sizes, t);
    }
  }

  /** As written, a teams reply is a true split of the players only when
      some arrangement beat the sentinel spread of 100; otherwise it is the
      sentinel itself: every slot of every team is the first player and all
      averages are zero. */
  lemma AsWrittenTeamsReply(players: seq<Player>, numTeams: nat, rolls: seq<seq<nat>>)
    requires numTeams >= 1 && |rolls| >= 1 && SkillsInRange(players)
    ensures var reply := CmdTeams(players, numTeams, rolls);
      (reply.Teams? <==> |players| >= numTeams) &&
      (reply.Teams? ==> |reply.teams| == numTeams && |reply.averages| == numTeams && reply.gap <= InitialBestDiff)
    ensures var reply := CmdTeams(players, numTeams, rolls);
      reply.Teams? && reply.gap < InitialBestDiff ==>
        multiset(Flatten(reply.teams)) == multiset(players) &&
        (forall t :: 0 <= t < numTeams ==>
           reply.averages[t] == TotalSkill(reply.teams[t]) as real / |reply.teams[t]| as real)
    ensures var reply := CmdTeams(players, numTeams, rolls);
      reply.Teams? && reply.gap >= InitialBestDiff ==>
        (forall t :: 0 <= t < numTeams ==> reply.averages[t] == 0.0) &&
        (forall t, m :: 0 <= t < numTeams && 0 <= m < |reply.teams[t]| ==> reply.teams[t][m] == players[0])
  {
    var n := |players|;
    assert UnsetNames(players) == [] by {
      UnsetNamesEmptyIff(players);
    }
    if n >= numTeams {
      var sizes := TeamSizes(n, numTeams);
      assert IndicesBelow(Identity(n), n);
      var start := Sentinel(n, numTeams);
      assert Fits(players, sizes, start.arrangement);
      SearchKeepsFit(players, sizes, rolls, 0, Identity(n), Some(start));
      var best := Search(players, sizes, rolls, 0, Identity(n), Some(start));
      if best.diff < InitialBestDiff {
        ArrangedTeams(players, sizes, best.arrangement);
      } else {
        SentinelTeams(players, sizes, numTeams);
      }
    }
  }

  lemma PermutationsOfTwo(s: seq<int>)
    requires IsPermutation(s, 2)
    ensures s == [0, 1] || s == [1, 0]
  {
    PermutationIndicesBelow(s, 2);
    assert s == [s[0], s[1]];
    assert Identity(2) == [0, 1];
  }

  /** Two players of skills 0 and 100 in two teams of one are 100 apart
      however they are arranged. */
  lemma ExtremesAlwaysSpreadFully(arrangement: seq<int>)
    requires IsPermutation(arrangement, 2)
    ensures Fits([Player("low", MinSkill), Player("high", MaxSkill)], [1, 1], arrangement)
    ensures var players := [Player("low", MinSkill), Player("high", MaxSkill)];
      Gap(Averages(players, [1, 1], arrangement)) == 100.0
  {
    var players := [Player("low", MinSkill), Player("high", MaxSkill)];
    PermutationsOfTwo(arrangement);
    SoloTeamsOfTwo(players, [1, 1], arrangement);
    var avgs := Averages(players, [1, 1], arrangement);
    assert avgs == [0.0, 100.0] || avgs == [100.0, 0.0];
    assert MaxFrom(avgs[..1], MaxAverageStart) == avgs[0];
    assert MinFrom(avgs[..1], MinAverageStart) == avgs[0];
  }

  /** Two players of skills 0 and 100 in two teams: every arrangement has a
      spread of exactly 100, which never beats the sentinel, so the reply
      puts the first player in both teams and leaves the second one out. */
  lemma SentinelIsNeverBeaten(rolls: seq<seq<nat>>)
    requires |rolls| >= 1
    ensures var low := Player("low", MinSkill);
      var high := Player("high", MaxSkill);
      CmdTeams([low, high], 2, rolls) == Teams(false, InitialBestDiff, [0.0, 0.0], [[low], [low]])
  {
    var low := Player("low", MinSkill);
    var high := Player("high", MaxSkill);
    var players := [low, high];
    var sizes := TeamSizes(2, 2);
    assert sizes == [1, 1] by {
      assert sizes[0] == SizeOf(2, 2, 0) == 1;
      assert sizes[1] == SizeOf(2, 2, 1) == 1;
    }
    assert UnsetNames(players) == [] by {
      UnsetNamesEmptyIff(players);
    }
    assert IndicesBelow(Identity(2), 2);
    var start := Sentinel(2, 2);
    assert start.arrangement == [0, 0];
    assert start.averages == [0.0, 0.0];
    SearchKeepsFit(players, sizes, rolls, 0, Identity(2), Some(start));
    var best := Search(players, sizes, rolls, 0, Identity(2), Some(start));
    if best != start {
      ExtremesAlwaysSpreadFully(best.arrangement);
      assert false;
    }
    SoloTeamsOfTwo(players, sizes, [0, 0]);
  }

  /** With two teams of one, each team is the player its slot names. */
  lemma SoloTeamsOfTwo(players: seq<Player>, sizes: seq<nat>, arrangement: seq<int>)
    requires sizes == [1, 1] && |arrangement| == 2 && IndicesBelow(arrangement, |players|)
    ensures Fits(players, sizes, arrangement)
    ensures Averages(players, sizes, arrangement) ==
            [players[arrangement[0]].skill as real, players[arrangement[1]].skill as real]
    ensures TeamsOf(players, sizes, arrangement) ==
            [[players[arrangement[0]]], [players[arrangement[1]]]]
  {
    assert sizes[..0] == [] && sizes[..1] == [1] && sizes[..2] == sizes;
    assert Offset(sizes, 0) == 0 && Offset(sizes, 1) == 1;
    var first := Members(players, sizes, arrangement, 0);
    var second := Members(players, sizes, arrangement, 1);
    assert first == [arrangement[0]];
    assert second == [arrangement[1]];
    assert SkillSum(players, first) == players[arrangement[0]].skill;
    assert SkillSum(players, second) == players[arrangement[1]].skill;
    var avgs := Averages(players, sizes, arrangement);
    assert avgs[0] == players[arrangement[0]].skill as real;
    assert avgs[1] == players[arrangement[1]].skill as real;
    var teams := TeamsOf(players, sizes, arrangement);
    assert teams[0] == [players[arrangement[0]]];
    assert teams[1] == [players[arrangement[1]]];
  }

  // ---------------------------------------------------------------------
  // The command over arrays, as the source runs it

  method SwapInPlace(a: array<int>, i: nat, j: nat)
    requires i < a.Length && j < a.Length
    modifies a
    ensures a[..] == Swap(old(a[..]), i, j)
  {
    var tmp := a[i];
    a[i] := a[j];
    a[j] := tmp;
  }

  /** `rand.Shuffle` on the arrangement, in place. */
  method ShuffleInPlace(a: array<int>, roll: seq<nat>)
    modifies a
    ensures a[..] == Shuffle(old(a[..]), roll)
  {
    var i := a.Length;
    while i > 1
      invariant 0 <= i <= a.Length
      invariant ShuffleDown(a[..], roll, i) == Shuffle(old(a[..]), roll)
    {
      var j := Pick(roll, a.Length - i, i);
      SwapInPlace(a, i - 1, j);
      i := i - 1;
    }
  }

  /** The inner loop of a scoring pass: team `teamIdx`'s skills, from
      position `playerIdx` of the arrangement, added up and divided by its
      size. */
  method TeamAverage(players: seq<Player>, teamSizes: array<nat>, arrangement: array<int>, teamIdx: nat, playerIdx: nat)
    returns (average: real)
    requires Fits(players, teamSizes[..], arrangement[..]) && teamIdx < teamSizes.Length
    requires playerIdx == Offset(teamSizes[..], teamIdx)
    ensures average == Average(players, teamSizes[..], arrangement[..], teamIdx)
  {
    ghost var team := Members(players, teamSizes[..], arrangement[..], teamIdx);
    OffsetStep(teamSizes[..], teamIdx);
    var sum := 0;
    for teammateIdx := 0 to teamSizes[teamIdx]
      invariant sum == SkillSum(players, team[..teammateIdx])
    {
      assert team[..teammateIdx + 1][..teammateIdx] == team[..teammateIdx];
      sum := sum + players[arrangement[playerIdx + teammateIdx]].skill;
    }
    assert team[..teamSizes[teamIdx]] == team;
    average := Mean(sum, teamSizes[teamIdx]);
  }

  /** One more average moves the running maximum and minimum as the loop does. */
  lemma RunningStep(avgs: seq<real>, i: nat)
    requires i < |avgs|
    ensures MaxFrom(avgs[..i + 1], MaxAverageStart) ==
            if avgs[i] > MaxFrom(avgs[..i], MaxAverageStart) then avgs[i] else MaxFrom(avgs[..i], MaxAverageStart)
    ensures MinFrom(avgs[..i + 1], MinAverageStart) ==
            if avgs[i] < MinFrom(avgs[..i], MinAverageStart) then avgs[i] else MinFrom(avgs[..i], MinAverageStart)
  {
    assert avgs[..i + 1][..i] == avgs[..i];
  }

  /** One scoring pass: fills `averages` and returns the spread. */
  method Score(players: seq<Player>, teamSizes: array<nat>, arrangement: array<int>, averages: array<real>)
    returns (averageDiff: real)
    requires teamSizes.Length == averages.Length && Fits(players, teamSizes[..], arrangement[..])
    modifies averages
    ensures averages[..] == Averages(players, teamSizes[..], arrangement[..])
    ensures averageDiff == Gap(averages[..])
  {
    ghost var sizes := teamSizes[..];
    ghost var avgs := Averages(players, sizes, arrangement[..]);
    var maxAverage := MaxAverageStart;
    var minAverage := MinAverageStart;
    var playerIdx := 0;
    for teamIdx := 0 to teamSizes.Length
      invariant playerIdx == Offset(sizes, teamIdx)
      invariant forall t :: 0 <= t < teamIdx ==> averages[t] == avgs[t]
      invariant maxAverage == MaxFrom(avgs[..teamIdx], MaxAverageStart)
      invariant minAverage == MinFrom(avgs[..teamIdx], MinAverageStart)
    {
      OffsetStep(sizes, teamIdx);
      RunningStep(avgs, teamIdx);
      var average := TeamAverage(players, teamSizes, arrangement, teamIdx, playerIdx);
      playerIdx := playerIdx + teamSizes[teamIdx];
      averages[teamIdx] := average;
      if average > maxAverage {
        maxAverage := average;
      }
      if average < minAverage {
        minAverage := average;
      }
    }
    assert averages[..] == avgs;
    assert avgs == avgs[..averages.Length];
    averageDiff := maxAverage - minAverage;
  }

  /** `copy(dst, src)` between two buffers of the same length. */
  method CopyInto<T>(dst: array<T>, src: array<T>)
    requires dst.Length == src.Length && dst != src
    modifies dst
    ensures dst[..] == src[..]
  {
    forall i | 0 <= i < dst.Length {
      dst[i] := src[i];
    }
  }

  /** The names of the players whose skill is unset. */
  method CollectUnset(players: seq<Player>) returns (unset: seq<string>)
    ensures unset == UnsetNames(players)
  {
    unset := [];
    for i := 0 to |players|
      invariant unset == UnsetNames(players[..i])
    {
      assert players[..i + 1][..i] == players[..i];
      if players[i].skill == UnsetSkill {
        unset := unset + [players[i].name];
      }
    }
    assert players[..|players|] == players;
  }

  /** One turn of the search: shuffle `k` yields `next`, scored `gap`. */
  lemma SearchStep(players: seq<Player>, sizes: seq<nat>, rolls: seq<seq<nat>>, k: nat,
                   arrangement: seq<int>, best: Best, next: seq<int>, gap: real)
    requires k < |rolls| && Fits(players, sizes, arrangement)
    requires next == Shuffle(arrangement, rolls[k]) && Fits(players, sizes, next)
    requires gap == Gap(Averages(players, sizes, next))
    ensures var kept := if gap < best.diff then Best(gap, next, Averages(players, sizes, next)) else best;
      Search(players, sizes, rolls, k, arrangement, Some(best)) ==
        if gap <= MaxTeamDiffAllowed || k + 1 == |rolls| then kept
        else Search(players, sizes, rolls, k + 1, next, Some(kept))
  {
  }

  /** The buffers of one `/teams` run, as the source allocates them. */
  method NewBuffers(n: nat, numTeams: nat)
    returns (bestArrangement: array<int>, bestAverages: array<real>,
             arrangement: array<int>, averages: array<real>)
    ensures fresh(bestArrangement) && fresh(bestAverages) && fresh(arrangement) && fresh(averages)
    ensures bestArrangement != arrangement && bestAverages != averages
    ensures Best(InitialBestDiff, bestArrangement[..], bestAverages[..]) == Sentinel(n, numTeams)
    ensures arrangement[..] == Identity(n) && averages.Length == numTeams
    ensures bestArrangement.Length == n && bestAverages.Length == numTeams
  {
    bestArrangement := new int[n](_ => 0);
    bestAverages := new real[numTeams](_ => 0.0);
    arrangement := new int[n](i => i);
    averages := new real[numTeams](_ => 0.0);
    assert arrangement[..] == Identity(n);
    assert bestArrangement[..] == seq(n, _ => 0);
    assert bestAverages[..] == seq(numTeams, _ => 0.0);
  }

  /** The shuffle-and-score loop, from the sentinel best, over `teamSizes`. */
  method RunSearch(players: seq<Player>, teamSizes: array<nat>, rolls: seq<seq<nat>>)
    returns (bestDiff: real, bestArrangement: array<int>, bestAverages: array<real>)
    requires |rolls| >= 1 && Fits(players, teamSizes[..], Identity(|players|))
    ensures Best(bestDiff, bestArrangement[..], bestAverages[..]) ==
            Search(players, teamSizes[..], rolls, 0, Identity(|players|), Some(Sentinel(|players|, teamSizes.Length)))
  {
    var n := |players|;
    ghost var sizes := teamSizes[..];
    var arrangement, averages;
    bestArrangement, bestAverages, arrangement, averages := NewBuffers(n, teamSizes.Length);
    bestDiff := InitialBestDiff;
    ghost var target := Search(players, sizes, rolls, 0, Identity(n), Some(Sentinel(n, teamSizes.Length)));

    var k := 0;
    while true
      invariant 0 <= k < |rolls|
      invariant teamSizes[..] == sizes && arrangement.Length == n && bestArrangement.Length == n
      invariant bestAverages.Length == teamSizes.Length && averages.Length == teamSizes.Length
      invariant Fits(players, sizes, arrangement[..])
      invariant Search(players, sizes, rolls, k, arrangement[..],
                       Some(Best(bestDiff, bestArrangement[..], bestAverages[..]))) == target
      decreases |rolls| - k
    {
      ghost var before := arrangement[..];
      ghost var best := Best(bestDiff, bestArrangement[..], bestAverages[..]);
      ShuffleInPlace(arrangement, rolls[k]);
      ShufflePermutes(before, rolls[k]);
      SameElementsBelow(before, arrangement[..], n);
      var averageDiff := Score(players, teamSizes, arrangement, averages);
      SearchStep(players, sizes, rolls, k, before, best, arrangement[..], averageDiff);
      ghost var kept := if averageDiff < bestDiff then Best(averageDiff, arrangement[..], averages[..]) else best;
      if averageDiff < bestDiff {
        bestDiff := averageDiff;
        CopyInto(bestArrangement, arrangement);
        CopyInto(bestAverages, averages);
      }
      assert Best(bestDiff, bestArrangement[..], bestAverages[..]) == kept;
      if averageDiff <= MaxTeamDiffAllowed || k + 1 == |rolls| {
        break;
      }
      k := k + 1;
    }
  }

  /** `/teams`: the reply the handler builds from the active players, the
      requested number of teams and the random draws. */
  method BalanceTeams(players: seq<Player>, numTeams: nat, rolls: seq<seq<nat>>) returns (reply: Reply)
    requires numTeams >= 1 && |rolls| >= 1
    ensures reply == CmdTeams(players, numTeams, rolls)
  {
    var n := |players|;
    if n < numTeams {
      return NotEnoughPlayers(n, numTeams);
    }
    var unset := CollectUnset(players);
    if |unset| > 0 {
      return UnsetRanks(unset);
    }
    var teamSizes := new nat[numTeams](t requires 0 <= t < numTeams => SizeOf(n, numTeams, t));
    var sizes := teamSizes[..];
    assert sizes == TeamSizes(n, numTeams);
    assert IndicesBelow(Identity(n), n);
    var bestDiff, bestArrangement, bestAverages := RunSearch(players, teamSizes, rolls);
    SearchKeepsFit(players, sizes, rolls, 0, Identity(n), Some(Sentinel(n, numTeams)));
    reply := Teams(bestDiff <= MaxTeamDiffAllowed, bestDiff, bestAverages[..],
                   TeamsOf(players, sizes, bestArrangement[..]));
  }
}
