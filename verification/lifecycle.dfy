/** Sequences of calls. The host delivers calls one at a time; a call that
    fails leaves the state as it was, a call that succeeds replaces it. The
    lemmas here follow the contract across several calls and pin down the
    behaviour the single-call contracts imply: the proposal map never holds
    more than the slot "0", the counter drifts away from the stored ids,
    repeated votes and repeated executions keep taking effect. */
module Lifecycle {
  import opened Wrappers
  import opened Ints
  import opened Keys
  import opened Dao
  import opened Contract

  /** The mutating commands, with the fields the contract's dispatcher
      passes on. */
  datatype Command =
    | ProposeCmd(title: string, description: string, recipient: Option<Addr>, amount: Option<U128>)
    | VoteCmd(proposalId: U64, approve: bool)
    | ExecuteCmd(proposalId: U64)

  /** One call as the host delivers it: the signer, the block time, the command. */
  datatype Call = Call(sender: Addr, now: U64, command: Command)

  /** Routes a call to its handler. Members never change, the counter changes
      only on `propose`, no call fails with `AlreadyExecuted` or
      `InvalidInput`, and the only transfers ever emitted are zero-amount
      `execute` payouts. */
  function Dispatch(st: State, c: Call): (r: Result<Step, Failure>)
    ensures r.Ok? ==> r.value.state.members == st.members
    ensures r.Ok? && !c.command.ProposeCmd? ==> r.value.state.proposalCount == st.proposalCount
    ensures r.Err? ==> r.error != Returned(AlreadyExecuted) && !(r.error.Returned? && r.error.error.InvalidInput?)
    ensures r.Ok? && r.value.transfer.Some? ==>
              && c.command.ExecuteCmd?
              && r.value.transfer.value.amount == 0
              && r.value.transfer.value.denom == DENOM
  {
    match c.command
    case ProposeCmd(title, description, recipient, amount) =>
      Propose(st, c.sender, c.now, title, description, recipient, amount)
    case VoteCmd(proposalId, approve) => Vote(st, c.sender, proposalId, approve)
    case ExecuteCmd(proposalId) => Execute(st, proposalId)
  }

  /** The state the host keeps after a call: the new one on success, the old
      one on any failure. */
  function Commit(st: State, r: Result<Step, Failure>): State {
    if r.Ok? then r.value.state else st
  }

  /** The state after delivering `calls` in order. */
  function Run(st: State, calls: seq<Call>): State
    decreases |calls|
  {
    if |calls| == 0 then st
    else
      var before := Run(st, calls[..|calls| - 1]);
      Commit(before, Dispatch(before, calls[|calls| - 1]))
  }

  /** How many of `calls` were proposals that the contract accepted. */
  function AcceptedProposals(st: State, calls: seq<Call>): nat
    decreases |calls|
  {
    if |calls| == 0 then 0
    else
      var before := Run(st, calls[..|calls| - 1]);
      var c := calls[|calls| - 1];
      AcceptedProposals(st, calls[..|calls| - 1])
        + (if c.command.ProposeCmd? && Dispatch(before, c).Ok? then 1 else 0)
  }

  /** The only proposal slot ever written by `propose` is "0", holding id 0. */
  ghost predicate OnlySlotZero(st: State) {
    && st.proposals.Keys <= {"0"}
    && forall k :: k in st.proposals ==> st.proposals[k].id == 0
  }

  lemma DispatchKeepsOnlySlotZero(st: State, c: Call)
    requires OnlySlotZero(st)
    ensures OnlySlotZero(Commit(st, Dispatch(st, c)))
  {
  }

  /** One call moves a present counter by one exactly when it is an accepted proposal. */
  lemma DispatchCounter(st: State, c: Call)
    requires st.proposalCount.Some?
    ensures Commit(st, Dispatch(st, c)).proposalCount.Some?
    ensures Commit(st, Dispatch(st, c)).proposalCount.value
            == st.proposalCount.value + (if c.command.ProposeCmd? && Dispatch(st, c).Ok? then 1 else 0)
  {
  }

  lemma AtMostOneProposal(st: State)
    requires st.proposals.Keys <= {"0"}
    ensures |st.proposals| <= 1
  {
    assert |st.proposals.Keys| <= |{"0"}| by {
      if "0" in st.proposals {
        assert st.proposals.Keys == {"0"};
      } else {
        assert st.proposals.Keys == {};
      }
    }
  }

  /** From a state whose proposals sit only in slot "0", any calls keep it
      that way, keep the members, and move the counter once per accepted
      proposal. */
  lemma {:induction false} RunKeepsOnlySlotZero(st: State, calls: seq<Call>)
    requires OnlySlotZero(st)
    requires st.proposalCount.Some?
    ensures var s := Run(st, calls);
      && s.members == st.members
      && OnlySlotZero(s)
      && s.proposalCount.Some?
      && s.proposalCount.value == st.proposalCount.value + AcceptedProposals(st, calls)
    decreases |calls|
  {
    if |calls| > 0 {
      var prefix := calls[..|calls| - 1];
      var c := calls[|calls| - 1];
      RunKeepsOnlySlotZero(st, prefix);
      var before := Run(st, prefix);
      assert Run(st, calls) == Commit(before, Dispatch(before, c));
      DispatchKeepsOnlySlotZero(before, c);
      DispatchCounter(before, c);
    }
  }

  /** From instantiation on, whatever the calls: the members are those the
      instantiation stored, at most one proposal exists and it sits under
      "0" with id 0, and the counter equals the number of accepted proposals. */
  lemma {:induction false} ReachableStates(inits: seq<MemberInit>, calls: seq<Call>)
    ensures var s := Run(Instantiate(inits), calls);
      && s.members == Instantiate(inits).members
      && OnlySlotZero(s)
      && |s.proposals| <= 1
      && s.proposalCount.Some?
      && s.proposalCount.value == AcceptedProposals(Instantiate(inits), calls)
  {
    var s0 := Instantiate(inits);
    assert OnlySlotZero(s0);
    RunKeepsOnlySlotZero(s0, calls);
    AtMostOneProposal(Run(s0, calls));
  }

  /** Membership queries see the members instantiation stored, whatever
      calls came after: no command adds, removes or reweighs a member. */
  lemma {:induction false} MemberQueryStable(inits: seq<MemberInit>, calls: seq<Call>, a: Addr)
    ensures QueryMember(Run(Instantiate(inits), calls), a) == QueryMember(Instantiate(inits), a)
  {
    ReachableStates(inits, calls);
  }

  /** Only proposals: every key other than "0" keeps its record, "0" is the
      only key that can appear, and after an accepted last call "0" holds the
      record that call created. */
  lemma {:induction false} ProposingKeepsOnlyLatest(st: State, calls: seq<Call>)
    requires forall i :: 0 <= i < |calls| ==> calls[i].command.ProposeCmd?
    ensures var s := Run(st, calls);
      && s.members == st.members
      && s.proposals.Keys <= st.proposals.Keys + {"0"}
      && forall k :: k in st.proposals && k != "0" ==> k in s.proposals && s.proposals[k] == st.proposals[k]
    ensures |calls| > 0 && Dispatch(Run(st, calls[..|calls| - 1]), calls[|calls| - 1]).Ok? ==>
      var s := Run(st, calls);
      var c := calls[|calls| - 1];
      && "0" in s.proposals
      && s.proposals["0"] == Proposal(0, c.command.title, c.command.description, 0, 0, false,
                                      c.command.amount.GetOr(0), c.command.recipient.GetOr(c.sender),
                                      c.now + VOTING_PERIOD)
    decreases |calls|
  {
    if |calls| > 0 {
      var prefix := calls[..|calls| - 1];
      ProposingKeepsOnlyLatest(st, prefix);
    }
  }

  /** Two accepted proposals in a row, starting with no proposals: the counter
      has moved by two, but only the second proposal is stored, so the id the
      counter would give the first proposal is not found. */
  lemma SecondProposalReplacesFirst(st: State, sender: Addr, now: U64, a: Command, b: Command)
    requires st.proposals == map[]
    requires a.ProposeCmd? && b.ProposeCmd?
    requires sender in st.members
    requires CountOrDefault(st) + 2 <= U64_MAX
    requires now + VOTING_PERIOD <= U64_MAX
    ensures var s := Run(st, [Call(sender, now, a), Call(sender, now, b)]);
      && CountOrDefault(s) == CountOrDefault(st) + 2
      && s.proposals.Keys == {"0"}
      && s.proposals["0"].title == b.title
      && s.proposals["0"].description == b.description
      && QueryProposal(s, 1).Err?
  {
    var c1 := Call(sender, now, a);
    var c2 := Call(sender, now, b);
    var calls := [c1, c2];
    assert calls[..1] == [c1];
    assert [c1][..0] == [];
    var r1 := Propose(st, sender, now, a.title, a.description, a.recipient, a.amount);
    assert Dispatch(st, c1) == r1;
    var s1 := r1.value.state;
    assert Run(st, [c1]) == s1;
    var r2 := Propose(s1, sender, now, b.title, b.description, b.recipient, b.amount);
    assert Dispatch(s1, c2) == r2;
    assert r2.Ok?;
    assert Run(st, calls) == r2.value.state;
    assert IdKey(1) == "1";
  }

  /** Proposing then reading back: id 0 returns the new record with the
      given terms, and every other id reads as it did before the call. */
  lemma ProposeThenQuery(st: State, sender: Addr, now: U64, title: string, description: string,
                         recipient: Option<Addr>, amount: Option<U128>, other: U64)
    requires Propose(st, sender, now, title, description, recipient, amount).Ok?
    requires other != 0
    ensures var s := Propose(st, sender, now, title, description, recipient, amount).value.state;
      && QueryProposal(s, 0).Ok?
      && QueryProposal(s, 0).value.title == title
      && QueryProposal(s, 0).value.description == description
      && QueryProposal(s, 0).value.recipient == recipient.GetOr(sender)
      && QueryProposal(s, 0).value.amount == amount.GetOr(0)
      && QueryProposal(s, other) == QueryProposal(st, other)
  {
  }

  /** A member who votes twice on the same proposal has their weight counted
      twice: nothing records the first ballot. */
  lemma RepeatedVoteCountsTwice(st: State, sender: Addr, proposalId: U64, approve: bool)
    requires sender in st.members
    requires IdKey(proposalId) in st.proposals
    requires var p := st.proposals[IdKey(proposalId)];
             (if approve then p.votesFor else p.votesAgainst) + 2 * st.members[sender].weight <= U128_MAX
    ensures var first := Vote(st, sender, proposalId, approve);
      && first.Ok?
      && var second := Vote(first.value.state, sender, proposalId, approve);
      && second.Ok?
      && var p := st.proposals[IdKey(proposalId)];
      && var q := second.value.state.proposals[IdKey(proposalId)];
      && var w := st.members[sender].weight;
      && q.votesFor == p.votesFor + (if approve then 2 * w else 0)
      && q.votesAgainst == p.votesAgainst + (if approve then 0 else 2 * w)
  {
  }

  /** Executing a paid-out proposal again pays it out again: `executed` is
      set but never read, and the state no longer changes. */
  lemma ExecuteRepeatsTransfer(st: State, proposalId: U64)
    requires Execute(st, proposalId).Ok? && Execute(st, proposalId).value.transfer.Some?
    ensures var first := Execute(st, proposalId).value;
      && Execute(first.state, proposalId) == Ok(first)
      && first.state.proposals[IdKey(proposalId)].executed
  {
    var s1 := Execute(st, proposalId).value.state;
    var key := IdKey(proposalId);
    var p := s1.proposals[key];
    assert p.(executed := true) == p;
    assert s1.proposals[key := p.(executed := true)] == s1.proposals;
  }

  /** Votes and executions never lower a tally, never clear `executed` and
      never touch a proposal's identity, terms or deadline. */
  lemma VoteAndExecuteKeepTerms(st: State, c: Call)
    requires !c.command.ProposeCmd?
    ensures var s := Commit(st, Dispatch(st, c));
      && s.proposals.Keys == st.proposals.Keys
      && forall k :: k in st.proposals ==>
           var p := st.proposals[k];
           var q := s.proposals[k];
           && q.votesFor >= p.votesFor
           && q.votesAgainst >= p.votesAgainst
           && (p.executed ==> q.executed)
           && q.id == p.id && q.title == p.title && q.description == p.description
           && q.amount == p.amount && q.recipient == p.recipient
           && q.votingEnd == p.votingEnd
  {
  }

  /** A new proposal wipes slot "0": tallies drop back to zero and an
      executed proposal becomes unexecuted again. */
  lemma ProposeResetsSlotZero(st: State, c: Call)
    requires c.command.ProposeCmd?
    requires "0" in st.proposals
    requires Dispatch(st, c).Ok?
    ensures var q := Dispatch(st, c).value.state.proposals["0"];
      && q.votesFor == 0 && q.votesAgainst == 0 && !q.executed
  {
  }

  /** The source's own `execute_proposal` unit test: one member of weight 10
      proposes 100 coins, votes for it, and executes. The test expects one
      bank message; the code fails with "Insufficient funds" because the
      balance it checks is the constant 0, and the proposal stays unexecuted. */
  lemma UnitTestExecuteProposalFails()
    ensures var s0 := Instantiate([MemberInit("addr1", 10)]);
      var s1 := Propose(s0, "addr1", 1571797419, "Another Title", "Another Description",
                        Some("recipient_address"), Some(100));
      && s1.Ok?
      && var s2 := Vote(s1.value.state, "addr1", 0, true);
      && s2.Ok?
      && Execute(s2.value.state, 0) == Err(Returned(Std(GenericErr(INSUFFICIENT_FUNDS))))
      && !s2.value.state.proposals["0"].executed
  {
  }

  /** A proposal with more weight against than for: `execute` succeeds,
      emits nothing and leaves the state as it was. */
  lemma RejectedProposalNotExecuted()
    ensures var s0 := Instantiate([MemberInit("alice", 10), MemberInit("bob", 20)]);
      var s1 := Propose(s0, "alice", 1000, "t", "d", Some("carol"), Some(100));
      && s1.Ok?
      && var s2 := Vote(s1.value.state, "bob", 0, false);
      && s2.Ok?
      && Execute(s2.value.state, 0) == Ok(Step(s2.value.state, None))
      && !s2.value.state.proposals["0"].executed
  {
  }

  /** A later entry for an address replaces an earlier one at instantiation:
      no duplicate check, one record per address. */
  lemma DuplicateMemberLastWins()
    ensures var st := Instantiate([MemberInit("addr1", 10), MemberInit("addr1", 20)]);
      && st.members == map["addr1" := Member("addr1", 20)]
  {
  }
}
