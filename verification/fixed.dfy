/** Corrected variants of two commands, kept apart from the model of the code
    as written (module `Contract`), which they do not replace there.

    - `ProposeFixed` gives a new proposal the counter's current value as its
      id and stores it under that id's key, then advances the counter. The
      written code uses id 0 and key "0" for every proposal.
    - `ExecuteFixed` refuses to pay a proposal out twice (`AlreadyExecuted`)
      and compares the amount with the treasury balance it is given. The
      written code never reads `executed` and compares with the constant 0. */
module Fixed {
  import opened Wrappers
  import opened Ints
  import opened Keys
  import opened Dao
  import opened Contract

  /** Every stored proposal sits under its own id's key, and that id is one
      the counter has already handed out. */
  ghost predicate KeyedById(st: State) {
    forall k :: k in st.proposals ==>
      k == IdKey(st.proposals[k].id) && st.proposals[k].id < CountOrDefault(st)
  }

  function ProposeFixed(st: State, sender: Addr, now: U64, title: string, description: string,
                        recipient: Option<Addr>, amount: Option<U128>): (r: Result<Step, Failure>)
    ensures sender !in st.members ==> r == Err(Returned(Unauthorized))
    ensures r.Ok? <==> sender in st.members && CountOrDefault(st) < U64_MAX && now + VOTING_PERIOD <= U64_MAX
    ensures r.Ok? ==>
              var id := CountOrDefault(st);
              && r.value.transfer == None
              && r.value.state.members == st.members
              && r.value.state.proposalCount == Some(id + 1)
              && r.value.state.proposals.Keys == st.proposals.Keys + {IdKey(id)}
              && (forall k :: k in st.proposals && k != IdKey(id) ==> r.value.state.proposals[k] == st.proposals[k])
              && var p := r.value.state.proposals[IdKey(id)];
              && p.id == id
              && p.title == title && p.description == description
              && p.votesFor == 0 && p.votesAgainst == 0 && !p.executed
              && p.amount == (if amount.Some? then amount.value else 0)
              && p.recipient == (if recipient.Some? then recipient.value else sender)
              && p.votingEnd == now + VOTING_PERIOD
  {
    if sender !in st.members then
      Err(Returned(Unauthorized))
    else
      var id := CountOrDefault(st);
      match CheckedAdd64(id, 1)
      case None => Err(Panicked(ADD_OVERFLOW))
      case Some(count) =>
        match CheckedAdd64(now, VOTING_PERIOD)
        case None => Err(Panicked(ADD_OVERFLOW))
        case Some(votingEnd) =>
          var proposal := Proposal(id, title, description, 0, 0, false,
                                   amount.GetOr(0), recipient.GetOr(sender), votingEnd);
          Ok(Step(st.(proposalCount := Some(count),
                      proposals := st.proposals[IdKey(id) := proposal]), None))
  }

  /** An accepted corrected proposal lands in a slot no earlier proposal
      occupies, keeps every earlier proposal, and keeps every record under
      its own id's key. */
  lemma ProposeFixedKeepsEarlierProposals(st: State, sender: Addr, now: U64, title: string,
                                          description: string, recipient: Option<Addr>,
                                          amount: Option<U128>)
    requires KeyedById(st)
    requires ProposeFixed(st, sender, now, title, description, recipient, amount).Ok?
    ensures IdKey(CountOrDefault(st)) !in st.proposals
    ensures var s := ProposeFixed(st, sender, now, title, description, recipient, amount).value.state;
      && (forall k :: k in st.proposals ==> k in s.proposals && s.proposals[k] == st.proposals[k])
      && |s.proposals| == |st.proposals| + 1
      && KeyedById(s)
  {
    var id := CountOrDefault(st);
    if IdKey(id) in st.proposals {
      var p := st.proposals[IdKey(id)];
      IdKeyInjective(p.id, id);
      assert false;
    }
    var s := ProposeFixed(st, sender, now, title, description, recipient, amount).value.state;
    assert s.proposals.Keys == st.proposals.Keys + {IdKey(id)};
  }

  /** Two accepted corrected proposals get consecutive ids and both stay stored. */
  lemma ProposeFixedIdsIncrease(st: State, sender: Addr, now: U64, a: string, b: string)
    requires KeyedById(st)
    requires sender in st.members
    requires CountOrDefault(st) + 2 <= U64_MAX
    requires now + VOTING_PERIOD <= U64_MAX
    ensures var s1 := ProposeFixed(st, sender, now, a, a, None, None).value.state;
      var s2 := ProposeFixed(s1, sender, now, b, b, None, None).value.state;
      && s2.proposals[IdKey(CountOrDefault(st))].id == CountOrDefault(st)
      && s2.proposals[IdKey(CountOrDefault(st))].title == a
      && s2.proposals[IdKey(CountOrDefault(st) + 1)].id == CountOrDefault(st) + 1
      && s2.proposals[IdKey(CountOrDefault(st) + 1)].title == b
  {
    var s1 := ProposeFixed(st, sender, now, a, a, None, None).value.state;
    ProposeFixedKeepsEarlierProposals(st, sender, now, a, a, None, None);
    ProposeFixedKeepsEarlierProposals(s1, sender, now, b, b, None, None);
  }

  function ExecuteFixed(st: State, proposalId: U64, balance: U128): (r: Result<Step, Failure>)
    ensures IdKey(proposalId) !in st.proposals ==> r == Err(Returned(Std(NotFound("Proposal"))))
    ensures IdKey(proposalId) in st.proposals ==>
              var p := st.proposals[IdKey(proposalId)];
              && (p.executed ==> r == Err(Returned(AlreadyExecuted)))
              && (!p.executed && p.votesFor <= p.votesAgainst ==> r == Ok(Step(st, None)))
              && (!p.executed && p.votesFor > p.votesAgainst && p.amount > balance ==>
                    r == Err(Returned(Std(GenericErr(INSUFFICIENT_FUNDS)))))
              && (!p.executed && p.votesFor > p.votesAgainst && p.amount <= balance ==>
                    && r.Ok?
                    && r.value.transfer == Some(Transfer(p.recipient, p.amount, DENOM))
                    && r.value.state.members == st.members
                    && r.value.state.proposalCount == st.proposalCount
                    && r.value.state.proposals.Keys == st.proposals.Keys
                    && r.value.state.proposals[IdKey(proposalId)] == p.(executed := true)
                    && (forall k :: k in st.proposals && k != IdKey(proposalId) ==>
                          r.value.state.proposals[k] == st.proposals[k]))
  {
    var key := IdKey(proposalId);
    if key !in st.proposals then
      Err(Returned(Std(NotFound("Proposal"))))
    else
      var p := st.proposals[key];
      if p.executed then
        Err(Returned(AlreadyExecuted))
      else if p.votesFor > p.votesAgainst then
        if balance < p.amount then
          Err(Returned(Std(GenericErr(INSUFFICIENT_FUNDS))))
        else
          Ok(Step(st.(proposals := st.proposals[key := p.(executed := true)]),
                  Some(Transfer(p.recipient, p.amount, DENOM))))
      else
        Ok(Step(st, None))
  }

  /** A proposal is paid out at most once: after a payout, every later
      corrected `execute` on it fails with `AlreadyExecuted`, whatever the
      balance, and any vote in between does not change that. */
  lemma ExecuteFixedAtMostOnce(st: State, proposalId: U64, balance: U128, later: U128,
                               voter: Addr, approve: bool)
    requires ExecuteFixed(st, proposalId, balance).Ok?
    requires ExecuteFixed(st, proposalId, balance).value.transfer.Some?
    ensures var s := ExecuteFixed(st, proposalId, balance).value.state;
      && ExecuteFixed(s, proposalId, later) == Err(Returned(AlreadyExecuted))
      && var v := Vote(s, voter, proposalId, approve);
      && (v.Ok? ==> ExecuteFixed(v.value.state, proposalId, later) == Err(Returned(AlreadyExecuted)))
  {
  }

  /** The source's `execute_proposal` unit test against the corrected
      commands, with 100 coins in the treasury: the proposal gets id 0, the
      payout is the one bank message the test expects, and a second
      execution is refused. */
  lemma UnitTestExecuteProposalFixed()
    ensures var s0 := Instantiate([MemberInit("addr1", 10)]);
      var s1 := ProposeFixed(s0, "addr1", 1571797419, "Another Title", "Another Description",
                             Some("recipient_address"), Some(100));
      && s1.Ok?
      && var s2 := Vote(s1.value.state, "addr1", 0, true);
      && s2.Ok?
      && var s3 := ExecuteFixed(s2.value.state, 0, 100);
      && s3.Ok?
      && s3.value.transfer == Some(Transfer("recipient_address", 100, DENOM))
      && ExecuteFixed(s3.value.state, 0, 100) == Err(Returned(AlreadyExecuted))
  {
  }
}
