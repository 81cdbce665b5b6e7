/** The value-level rules of the live poll: what a vote request is answered
    with, what the cooldown query reports, and the tally total.  The mutable
    store that applies these rules lives in module PollServer. */
module PollRules {

  datatype Option<+T> = None | Some(value: T)

  /** Voter identity: the caller's network address, treated as opaque. */
  type VoterId = string

  /** Clock ticks are microseconds, the resolution of the wall clock read by
      the vote and cooldown handlers. */
  const TicksPerSecond: int := 1_000_000

  /** Fixed cooldown granted after every accepted vote, in seconds and in ticks. */
  const CooldownSeconds: nat := 30
  const CooldownTicks: int := CooldownSeconds * TicksPerSecond

  /** Answer to a vote request.  Only OnCooldown carries a retry hint;
      Accepted carries the cooldown the voter now has. */
  datatype VoteOutcome =
    | Accepted(cooldown: nat)
    | NoActivePoll
    | InvalidOption
    | OnCooldown(remaining: nat)

  /** Answer to a cooldown query. */
  datatype CooldownStatus = CooldownStatus(onCooldown: bool, remaining: nat)

  /** The labels of a poll as a set: duplicates in the list collapse. */
  function OptionSet(options: seq<string>): set<string>
  {
    set o | o in options
  }

  /** The submitted choice is present and is one of the poll's labels. */
  predicate Offered(options: seq<string>, choice: Option<string>)
  {
    choice.Some? && choice.value in options
  }

  /** Whole seconds left until `end`, truncated toward zero: a voter with
      less than one second to wait is told 0. */
  function RemainingSeconds(now: int, end: int): (r: nat)
    requires now < end
    ensures r * TicksPerSecond <= end - now < (r + 1) * TicksPerSecond
  {
    (end - now) / TicksPerSecond
  }

  /** The cooldown query shared by the vote handler and the cooldown
      handler; a voter without an entry is never on cooldown. */
  function CooldownAt(cooldowns: map<VoterId, int>, voter: VoterId, now: int): (s: CooldownStatus)
    ensures s.onCooldown <==> voter in cooldowns && now < cooldowns[voter]
    ensures s.onCooldown ==>
      voter in cooldowns && s.remaining * TicksPerSecond <= cooldowns[voter] - now < (s.remaining + 1) * TicksPerSecond
    ensures !s.onCooldown ==> s.remaining == 0
  {
    if voter in cooldowns && now < cooldowns[voter] then
      CooldownStatus(true, RemainingSeconds(now, cooldowns[voter]))
    else
      CooldownStatus(false, 0)
  }

  /** The verdict on a vote: the checks run in the order "no active poll",
      "invalid option", "on cooldown", and the first that fails decides. */
  function Judge(active: bool, options: seq<string>, cooldowns: map<VoterId, int>,
                 voter: VoterId, choice: Option<string>, now: int): (r: VoteOutcome)
    ensures r == NoActivePoll <==> !active
    ensures r == InvalidOption <==> active && !Offered(options, choice)
    ensures r.OnCooldown? <==> active && Offered(options, choice) && CooldownAt(cooldowns, voter, now).onCooldown
    ensures r.OnCooldown? ==> r.remaining == CooldownAt(cooldowns, voter, now).remaining
    ensures r.Accepted? <==> active && Offered(options, choice) && !CooldownAt(cooldowns, voter, now).onCooldown
    ensures r.Accepted? ==> r.cooldown == CooldownSeconds
  {
    if !active then NoActivePoll
    else if !Offered(options, choice) then InvalidOption
    else
      var status := CooldownAt(cooldowns, voter, now);
      if status.onCooldown then OnCooldown(status.remaining) else Accepted(CooldownSeconds)
  }

  /** Sum of all tallies.  The key is picked arbitrarily; TotalRemove shows
      that the choice does not matter. */
  ghost function Total(votes: map<string, nat>): nat
    decreases |votes|
  {
    if votes == map[] then 0
    else
      var k :| k in votes;
      votes[k] + Total(votes - {k})
  }

  lemma {:induction false} TotalRemove(votes: map<string, nat>, k: string)
    requires k in votes
    ensures Total(votes) == votes[k] + Total(votes - {k})
    decreases |votes|
  {
    var j :| j in votes && Total(votes) == votes[j] + Total(votes - {j});
    if j != k {
      var rest := votes - {j} - {k};
      assert rest == votes - {k} - {j};
      TotalRemove(votes - {j}, k);
      TotalRemove(votes - {k}, j);
    }
  }

  /** Raising one tally by one raises the total by exactly one. */
  lemma TotalIncrement(votes: map<string, nat>, k: string)
    requires k in votes
    ensures Total(votes[k := votes[k] + 1]) == Total(votes) + 1
  {
    var bumped := votes[k := votes[k] + 1];
    assert bumped - {k} == votes - {k};
    TotalRemove(bumped, k);
    TotalRemove(votes, k);
  }

  /** A tally map whose every count is zero totals zero. */
  lemma {:induction false} TotalOfZeroes(votes: map<string, nat>)
    requires forall o :: o in votes ==> votes[o] == 0
    ensures Total(votes) == 0
    decreases |votes|
  {
    if votes != map[] {
      var k :| k in votes;
      TotalRemove(votes, k);
      TotalOfZeroes(votes - {k});
    }
  }

  /** A cooldown set at time t reports at most 30 seconds while the clock
      stays within [t, t + 30 s), and fewer than 30 once any time has passed. */
  lemma RemainingBelowCooldown(t: int, now: int)
    requires t <= now < t + CooldownTicks
    ensures RemainingSeconds(now, t + CooldownTicks) <= CooldownSeconds
    ensures t < now ==> RemainingSeconds(now, t + CooldownTicks) < CooldownSeconds
  {
  }

  /** The reported wait never grows as the clock moves forward. */
  lemma RemainingShrinks(t1: int, t2: int, end: int)
    requires t1 <= t2 < end
    ensures RemainingSeconds(t2, end) <= RemainingSeconds(t1, end)
  {
  }

  /** Once a vote by `voter` at time t is accepted and its cooldown entry
      written, no further vote by that voter is accepted before t + 30 s,
      whatever poll is running then and whatever option is chosen. */
  lemma RevoteWithinWindowRejected(active: bool, options: seq<string>, cooldowns: map<VoterId, int>,
                                   voter: VoterId, choice: Option<string>, t: int,
                                   active': bool, options': seq<string>, choice': Option<string>, t': int)
    requires Judge(active, options, cooldowns, voter, choice, t).Accepted?
    requires t' < t + CooldownTicks
    ensures !Judge(active', options', cooldowns[voter := t + CooldownTicks], voter, choice', t').Accepted?
    ensures active' && Offered(options', choice') ==>
      Judge(active', options', cooldowns[voter := t + CooldownTicks], voter, choice', t').OnCooldown?
  {
  }

  /** From t + 30 s on, the same voter is accepted again for any offered option
      of an active poll. */
  lemma CooldownExpires(options: seq<string>, cooldowns: map<VoterId, int>,
                        voter: VoterId, choice: Option<string>, t: int, t': int)
    requires Offered(options, choice)
    requires t + CooldownTicks <= t'
    ensures Judge(true, options, cooldowns[voter := t + CooldownTicks], voter, choice, t') == Accepted(CooldownSeconds)
  {
  }

  /** Writing one voter's cooldown entry does not change how any other voter
      is judged. */
  lemma OtherVotersUnaffected(active: bool, options: seq<string>, cooldowns: map<VoterId, int>,
                              voter: VoterId, end: int, other: VoterId, choice: Option<string>, now: int)
    requires other != voter
    ensures Judge(active, options, cooldowns[voter := end], other, choice, now)
         == Judge(active, options, cooldowns, other, choice, now)
  {
  }

  /** Truncation: a voter rejected half a second before the cooldown ends is
      told that 0 seconds remain. */
  lemma HalfSecondLeftReportsZero()
    ensures Judge(true, ["A", "B"], map["v" := 2 * TicksPerSecond], "v", Some("A"),
                  2 * TicksPerSecond - TicksPerSecond / 2) == OnCooldown(0)
  {
  }
}
