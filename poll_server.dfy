/** The process-wide poll state and the request handlers that read and
    change it.  Each handler runs as one atomic step. */
module PollServer {
  import opened PollRules

  /** What the poll endpoint returns: a copy of the poll record. */
  datatype Poll = Poll(active: bool, question: string, options: seq<string>,
                       votes: map<string, nat>, startTime: Option<int>)

  /** Builds a fresh tally map with one zero count per distinct label, in the
      order of the list; a repeated label overwrites its own zero. */
  method ZeroedTallies(options: seq<string>) returns (tallies: map<string, nat>)
    ensures tallies.Keys == OptionSet(options)
    ensures forall o :: o in tallies ==> tallies[o] == 0
  {
    tallies := map[];
    for i := 0 to |options|
      invariant tallies.Keys == OptionSet(options[..i])
      invariant forall o :: o in tallies ==> tallies[o] == 0
    {
      assert options[..i + 1] == options[..i] + [options[i]];
      tallies := tallies[options[i] := 0];
    }
    assert options[..|options|] == options;
  }

  /** The shared poll record together with the per-voter cooldown table. */
  class PollStore {
    var active: bool
    var question: string
    var options: seq<string>
    var votes: map<string, nat>
    var startTime: Option<int>
    /** End of each voter's cooldown, in clock ticks; entries are only ever
        written, never removed. */
    var cooldowns: map<VoterId, int>
    /** Votes accepted since the tallies were last zeroed. */
    ghost var acceptedSinceZeroed: nat

    /** The tally keys are exactly the poll's labels, so the increment of an
        offered option always finds its key; and no vote is lost or counted
        twice. */
    ghost predicate Valid()
      reads this
    {
      && votes.Keys == OptionSet(options)
      && Total(votes) == acceptedSinceZeroed
    }

    /** The state at process start: no poll, no cooldowns. */
    constructor ()
      ensures Valid()
      ensures !active && question == "" && options == [] && votes == map[] && startTime == None
      ensures cooldowns == map[]
    {
      active := false;
      question := "";
      options := [];
      votes := map[];
      startTime := None;
      cooldowns := map[];
      acceptedSinceZeroed := 0;
    }

    /** Replaces the poll wholesale and activates it.  No validation: any
        question and any option list, even empty or with repeats, is taken.
        The body's fields are read one by one after `active` is already set,
        so a body without `question` only reopens the current poll, and one
        with `question` but without `options` also replaces the question;
        `ok` is false exactly for these failed requests. */
    method StartPoll(newQuestion: Option<string>, newOptions: Option<seq<string>>, now: int) returns (ok: bool)
      requires Valid()
      modifies this
      ensures Valid()
      ensures active && cooldowns == old(cooldowns)
      ensures ok <==> newQuestion.Some? && newOptions.Some?
      ensures ok ==>
        && question == newQuestion.value && options == newOptions.value && startTime == Some(now)
        && votes.Keys == OptionSet(newOptions.value)
        && (forall o :: o in votes ==> votes[o] == 0)
        && Total(votes) == 0
      ensures !ok ==>
        && question == (if newQuestion.Some? then newQuestion.value else old(question))
        && options == old(options) && votes == old(votes) && startTime == old(startTime)
        && acceptedSinceZeroed == old(acceptedSinceZeroed)
    {
      active := true;
      if newQuestion.None? {
        return false;
      }
      question := newQuestion.value;
      if newOptions.None? {
        return false;
      }
      options := newOptions.value;
      votes := ZeroedTallies(newOptions.value);
      startTime := Some(now);
      TotalOfZeroes(votes);
      acceptedSinceZeroed := 0;
      ok := true;
    }

    /** Closes voting; the question, labels and final tallies stay readable. */
    method StopPoll()
      requires Valid()
      modifies this
      ensures Valid()
      ensures !active
      ensures question == old(question) && options == old(options) && votes == old(votes)
      ensures startTime == old(startTime) && cooldowns == old(cooldowns)
      ensures acceptedSinceZeroed == old(acceptedSinceZeroed)
    {
      active := false;
    }

    /** Zeroes every tally of the current labels, active or not; with no
        labels it changes nothing. */
    method ResetPoll()
      requires Valid()
      modifies this
      ensures Valid()
      ensures active == old(active) && question == old(question) && options == old(options)
      ensures startTime == old(startTime) && cooldowns == old(cooldowns)
      ensures votes.Keys == old(votes).Keys
      ensures forall o :: o in votes ==> votes[o] == 0
      ensures Total(votes) == 0
      ensures old(options) == [] ==> votes == old(votes) && acceptedSinceZeroed == old(acceptedSinceZeroed)
    {
      if options != [] {
        votes := ZeroedTallies(options);
        TotalOfZeroes(votes);
        acceptedSinceZeroed := 0;
      }
    }

    /** Handles one vote.  The answer is the one Judge gives on the state
        before the call; only an accepted vote changes anything, and then
        exactly one tally and the voter's own cooldown entry. */
    method SubmitVote(voter: VoterId, choice: Option<string>, now: int) returns (outcome: VoteOutcome)
      requires Valid()
      modifies this
      ensures Valid()
      ensures outcome == Judge(old(active), old(options), old(cooldowns), voter, choice, now)
      ensures active == old(active) && question == old(question) && options == old(options)
      ensures startTime == old(startTime)
      ensures outcome.Accepted? ==>
        && choice.Some? && choice.value in old(votes)
        && votes == old(votes)[choice.value := old(votes)[choice.value] + 1]
        && cooldowns == old(cooldowns)[voter := now + CooldownTicks]
        && Total(votes) == old(Total(votes)) + 1
        && acceptedSinceZeroed == old(acceptedSinceZeroed) + 1
      ensures !outcome.Accepted? ==>
        && votes == old(votes) && cooldowns == old(cooldowns)
        && acceptedSinceZeroed == old(acceptedSinceZeroed)
    {
      if !active {
        return NoActivePoll;
      }
      if choice.None? || choice.value !in options {
        return InvalidOption;
      }
      var option := choice.value;
      if voter in cooldowns {
        var cooldownEnd := cooldowns[voter];
        if now < cooldownEnd {
          var remaining := (cooldownEnd - now) / TicksPerSecond;
          return OnCooldown(remaining);
        }
      }
      TotalIncrement(votes, option);
      votes := votes[option := votes[option] + 1];
      cooldowns := cooldowns[voter := now + CooldownTicks];
      acceptedSinceZeroed := acceptedSinceZeroed + 1;
      outcome := Accepted(CooldownSeconds);
    }

    /** Read-only cooldown query: it has no modifies clause, so it never
        inserts an entry. */
    method CheckCooldown(voter: VoterId, now: int) returns (status: CooldownStatus)
      ensures status == CooldownAt(cooldowns, voter, now)
      ensures status.onCooldown <==> voter in cooldowns && now < cooldowns[voter]
      ensures status.onCooldown ==> status.remaining == RemainingSeconds(now, cooldowns[voter])
      ensures !status.onCooldown ==> status.remaining == 0
    {
      if voter in cooldowns {
        var cooldownEnd := cooldowns[voter];
        if now < cooldownEnd {
          return CooldownStatus(true, (cooldownEnd - now) / TicksPerSecond);
        }
      }
      return CooldownStatus(false, 0);
    }

    /** The snapshot served to the display and voting pages: a value, so
        later handler calls cannot change it. */
    method GetPoll() returns (snapshot: Poll)
      requires Valid()
      ensures snapshot == Poll(active, question, options, votes, startTime)
      ensures snapshot.votes.Keys == OptionSet(snapshot.options)
    {
      snapshot := Poll(active, question, options, votes, startTime);
    }
  }

  /** Opening a poll and rejecting bad votes, checked against the handlers'
      contracts alone. */
  method VotingSession(now: int)
  {
    var store := new PollStore();
    var first := store.SubmitVote("10.0.0.1", Some("A"), now);
    assert first == NoActivePoll;

    var started := store.StartPoll(Some("Best?"), Some(["A", "B"]), now);
    assert OptionSet(["A", "B"]) == {"A", "B"};
    var poll := store.GetPoll();
    assert poll.active && poll.options == ["A", "B"];
    assert poll.votes.Keys == {"A", "B"} && poll.votes["A"] == 0 && poll.votes["B"] == 0;

    var bad := store.SubmitVote("10.0.0.1", Some("C"), now);
    assert bad == InvalidOption;
    var missing := store.SubmitVote("10.0.0.1", None, now);
    assert missing == InvalidOption;
  }

  /** An accepted vote counts once and starts the voter's cooldown. */
  method CooldownSession(now: int)
  {
    var store := new PollStore();
    var started := store.StartPoll(Some("Best?"), Some(["A", "B"]), now);
    assert OptionSet(["A", "B"]) == {"A", "B"};
    assert store.votes.Keys == {"A", "B"} && store.votes["A"] == 0 && store.votes["B"] == 0;

    var ok := store.SubmitVote("10.0.0.1", Some("A"), now);
    assert ok == Accepted(30);
    assert store.votes.Keys == {"A", "B"} && store.votes["A"] == 1 && store.votes["B"] == 0;

    var again := store.SubmitVote("10.0.0.1", Some("B"), now + 29 * TicksPerSecond + 1);
    assert again == OnCooldown(0);
    var query := store.CheckCooldown("10.0.0.1", now + 10 * TicksPerSecond);
    assert query == CooldownStatus(true, 20);
  }

  /** Stopping keeps the final tallies readable and closes voting. */
  method ClosingSession(now: int)
  {
    var store := new PollStore();
    var started := store.StartPoll(Some("Best?"), Some(["A", "B"]), now);
    assert OptionSet(["A", "B"]) == {"A", "B"};
    assert store.votes.Keys == {"A", "B"} && store.votes["A"] == 0 && store.votes["B"] == 0;
    var ok := store.SubmitVote("10.0.0.2", Some("B"), now);
    assert ok == Accepted(30);

    store.StopPoll();
    var poll := store.GetPoll();
    assert !poll.active && poll.votes.Keys == {"A", "B"} && poll.votes["A"] == 0 && poll.votes["B"] == 1;
    var closed := store.SubmitVote("10.0.0.3", Some("A"), now);
    assert closed == NoActivePoll;
  }

  /** Resetting zeroes the tallies of a running poll, which keeps taking
      votes for the same labels. */
  method ResetSession(now: int)
  {
    var store := new PollStore();
    var started := store.StartPoll(Some("Best?"), Some(["A", "B"]), now);
    assert OptionSet(["A", "B"]) == {"A", "B"};
    var ok := store.SubmitVote("10.0.0.2", Some("B"), now);
    assert ok == Accepted(30);

    assert store.options == ["A", "B"] && "10.0.0.3" !in store.cooldowns;
    store.ResetPoll();
    assert store.active && store.votes.Keys == {"A", "B"} && store.votes["A"] == 0 && store.votes["B"] == 0;
    var next := store.SubmitVote("10.0.0.3", Some("A"), now);
    assert next == Accepted(30);
    assert store.votes["A"] == 1 && store.votes["B"] == 0;
  }

  /** A cooldown outlives the poll it was earned in; repeated labels share
      one tally. */
  method CrossPollSession(now: int)
  {
    var store := new PollStore();
    var started := store.StartPoll(Some("Best?"), Some(["A", "B"]), now);
    assert OptionSet(["A", "B"]) == {"A", "B"};
    var ok := store.SubmitVote("10.0.0.1", Some("A"), now);
    assert ok == Accepted(30);
    assert store.cooldowns["10.0.0.1"] == now + CooldownTicks;

    started := store.StartPoll(Some("Next?"), Some(["X", "X"]), now + 5 * TicksPerSecond);
    assert OptionSet(["X", "X"]) == {"X"};
    assert store.votes.Keys == {"X"} && store.votes["X"] == 0;
    var early := store.SubmitVote("10.0.0.1", Some("X"), now + 5 * TicksPerSecond);
    assert early == OnCooldown(25);
  }

  /** Thirty seconds after an accepted vote the same voter is accepted again. */
  method ExpirySession(now: int)
  {
    var store := new PollStore();
    var started := store.StartPoll(Some("Best?"), Some(["A", "B"]), now);
    assert OptionSet(["A", "B"]) == {"A", "B"};
    var ok := store.SubmitVote("10.0.0.1", Some("A"), now);
    assert ok == Accepted(30);
    var later := store.SubmitVote("10.0.0.1", Some("A"), now + 30 * TicksPerSecond);
    assert later == Accepted(30);
    assert store.votes["A"] == 2;
  }

  /** A start request whose body lacks `question` reopens a stopped poll with
      its old labels and tallies, and voting resumes in it. */
  method MalformedStartSession(now: int)
  {
    var store := new PollStore();
    var started := store.StartPoll(Some("Best?"), Some(["A", "B"]), now);
    assert OptionSet(["A", "B"]) == {"A", "B"};
    store.StopPoll();

    started := store.StartPoll(None, Some(["X", "Y"]), now);
    assert !started;
    var poll := store.GetPoll();
    assert poll.active && poll.question == "Best?" && poll.options == ["A", "B"];
    var resumed := store.SubmitVote("10.0.0.2", Some("B"), now);
    assert resumed == Accepted(30);
  }

  /** A start request whose body lacks `options` replaces only the question
      and reopens the poll. */
  method QuestionOnlyStartSession(now: int)
  {
    var store := new PollStore();
    var started := store.StartPoll(Some("Best?"), Some(["A", "B"]), now);
    store.StopPoll();
    started := store.StartPoll(Some("Other?"), None, now);
    assert !started && store.active;
    assert store.question == "Other?" && store.options == ["A", "B"];
  }
}
