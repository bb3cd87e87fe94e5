/** The contract's entry points as pure transitions. A command maps the
    current state and its arguments to either a new state with at most one
    outgoing bank transfer, or a failure. `propose` and `vote` also take the
    caller, who must be a member; `propose` also takes the block time;
    `execute` takes neither, since anyone may call it. The host
    commits a success and discards every write of a failed call, so a failure
    carries no state: the state after it is the state before it.

    Behaviour kept as the code has it: every new proposal gets id 0 and is
    stored under key "0"; neither `vote` nor `execute` looks at `voting_end`
    or `executed`; no ballot is recorded; the treasury balance is the
    constant 0; `AlreadyExecuted` and `InvalidInput` are never produced. */
module Contract {
  import opened Wrappers
  import opened Ints
  import opened Keys
  import opened Order
  import opened Dao

  /** Seven days in seconds. */
  const VOTING_PERIOD: U64 := 604800
  /** The coin denomination of every transfer. */
  const DENOM: string := "udevcore"
  /** The balance `execute` compares the amount against. */
  const TREASURY_BALANCE: U128 := 0
  /** The message `execute` fails with when the balance is short. */
  const INSUFFICIENT_FUNDS: string := "Insufficient funds"
  /** The panic message of an overflowing checked addition. */
  const ADD_OVERFLOW: string := "attempt to add with overflow"

  /** The host library's errors that reach the contract. */
  datatype StdError = NotFound(kind: string) | GenericErr(msg: string)

  /** The contract's own error enumeration. */
  datatype ContractError =
    | Std(std: StdError)
    | Unauthorized
    | InvalidInput(reason: string)
    | AlreadyExecuted

  /** How a call ends without success: the contract returns an error, or the
      runtime panics on an overflowing addition. The host aborts the call in
      both cases. */
  datatype Failure = Returned(error: ContractError) | Panicked(message: string)

  /** A bank send of a single coin. */
  datatype Transfer = Transfer(toAddress: Addr, amount: U128, denom: string)

  /** The outcome of a successful call: the state to commit and the transfer
      to hand to the host, if any. */
  datatype Step = Step(state: State, transfer: Option<Transfer>)

  /** One entry of the instantiation message's member list. */
  datatype MemberInit = MemberInit(address: Addr, weight: U128)

  function AddressesOf(inits: seq<MemberInit>): set<Addr> {
    set i | 0 <= i < |inits| :: inits[i].address
  }

  /** No later entry of `inits` repeats the address of entry `i`. */
  predicate LastOccurrence(inits: seq<MemberInit>, i: nat)
    requires i < |inits|
  {
    forall j :: i < j < |inits| ==> inits[j].address != inits[i].address
  }

  /** Saves each listed member under its address, in list order, so a later
      entry for an address replaces an earlier one. */
  function SaveMembers(members: map<string, Member>, inits: seq<MemberInit>): (r: map<string, Member>)
    ensures r.Keys == members.Keys + AddressesOf(inits)
    ensures forall k :: k in members && k !in AddressesOf(inits) ==> r[k] == members[k]
    ensures forall i :: 0 <= i < |inits| && LastOccurrence(inits, i) ==>
              r[inits[i].address] == Member(inits[i].address, inits[i].weight)
    ensures MembersKeyedByAddress(members) ==> MembersKeyedByAddress(r)
    decreases |inits|
  {
    if |inits| == 0 then
      members
    else
      var m := inits[0];
      var rest := inits[1..];
      assert AddressesOf(inits) == {m.address} + AddressesOf(rest) by {
        forall a | a in AddressesOf(inits)
          ensures a in {m.address} + AddressesOf(rest)
        {
          var i :| 0 <= i < |inits| && inits[i].address == a;
          if i > 0 {
            assert rest[i - 1].address == a;
          }
        }
        forall a | a in AddressesOf(rest)
          ensures a in AddressesOf(inits)
        {
          var i :| 0 <= i < |rest| && rest[i].address == a;
          assert inits[i + 1].address == a;
        }
      }
      var r := SaveMembers(members[m.address := Member(m.address, m.weight)], rest);
      assert forall i :: 1 <= i < |inits| && LastOccurrence(inits, i) ==> LastOccurrence(rest, i - 1);
      assert LastOccurrence(inits, 0) ==> m.address !in AddressesOf(rest);
      r
  }

  /** `instantiate`: the counter starts at 0, there are no proposals, and
      every listed address is a member with the weight of its last entry. */
  function Instantiate(inits: seq<MemberInit>): (st: State)
    ensures st.proposalCount == Some(0)
    ensures st.proposals == map[]
    ensures st.members.Keys == AddressesOf(inits)
    ensures forall i :: 0 <= i < |inits| && LastOccurrence(inits, i) ==>
              st.members[inits[i].address] == Member(inits[i].address, inits[i].weight)
    ensures MembersKeyedByAddress(st.members)
  {
    State(map[], Some(0), SaveMembers(map[], inits))
  }

  /** `execute_propose`. Only a member may propose. The counter is read
      (absent as 0), incremented and saved, yet the new proposal's id is the
      constant 0 and it is saved under the key "0", replacing whatever was
      there. Overflow of the counter or of the deadline panics. */
  function Propose(st: State, sender: Addr, now: U64, title: string, description: string,
                   recipient: Option<Addr>, amount: Option<U128>): (r: Result<Step, Failure>)
    ensures sender !in st.members ==> r == Err(Returned(Unauthorized))
    ensures sender in st.members && (CountOrDefault(st) == U64_MAX || now + VOTING_PERIOD > U64_MAX) ==>
              r == Err(Panicked(ADD_OVERFLOW))
    ensures r.Ok? <==> sender in st.members && CountOrDefault(st) < U64_MAX && now + VOTING_PERIOD <= U64_MAX
    ensures r.Ok? ==>
              && r.value.transfer == None
              && r.value.state.members == st.members
              && r.value.state.proposalCount == Some(CountOrDefault(st) + 1)
              && r.value.state.proposals.Keys == st.proposals.Keys + {"0"}
              && (forall k :: k in st.proposals && k != "0" ==> r.value.state.proposals[k] == st.proposals[k])
    ensures r.Ok? ==>
              var p := r.value.state.proposals["0"];
              && p.id == 0
              && p.title == title && p.description == description
              && p.votesFor == 0 && p.votesAgainst == 0 && !p.executed
              && p.amount == (if amount.Some? then amount.value else 0)
              && p.recipient == (if recipient.Some? then recipient.value else sender)
              && p.votingEnd == now + VOTING_PERIOD
  {
    if sender !in st.members then
      Err(Returned(Unauthorized))
    else
      match CheckedAdd64(CountOrDefault(st), 1)
      case None => Err(Panicked(ADD_OVERFLOW))
      case Some(count) =>
        match CheckedAdd64(now, VOTING_PERIOD)
        case None => Err(Panicked(ADD_OVERFLOW))
        case Some(votingEnd) =>
          var proposal := Proposal(0, title, description, 0, 0, false,
                                   amount.GetOr(0), recipient.GetOr(sender), votingEnd);
          assert IdKey(proposal.id) == "0";
          Ok(Step(st.(proposalCount := Some(count),
                      proposals := st.proposals[IdKey(proposal.id) := proposal]), None))
  }

  /** `execute_vote`. Only a member may vote, only on a stored proposal; the
      caller's weight is added (checked) to one tally. Nothing records that
      the caller voted and nothing compares the block time with the deadline. */
  function Vote(st: State, sender: Addr, proposalId: U64, approve: bool): (r: Result<Step, Failure>)
    ensures sender !in st.members ==> r == Err(Returned(Unauthorized))
    ensures sender in st.members && IdKey(proposalId) !in st.proposals ==>
              r == Err(Returned(Std(NotFound("Proposal"))))
    ensures r.Ok? ==>
              && r.value.transfer == None
              && r.value.state.members == st.members
              && r.value.state.proposalCount == st.proposalCount
              && r.value.state.proposals.Keys == st.proposals.Keys
              && (forall k :: k in st.proposals && k != IdKey(proposalId) ==>
                    r.value.state.proposals[k] == st.proposals[k])
    ensures sender in st.members && IdKey(proposalId) in st.proposals ==>
              var p := st.proposals[IdKey(proposalId)];
              var w := st.members[sender].weight;
              && (r.Ok? <==> (if approve then p.votesFor else p.votesAgainst) + w <= U128_MAX)
              && (r.Err? ==> r.error == Panicked(ADD_OVERFLOW))
              && (r.Ok? ==>
                    var q := r.value.state.proposals[IdKey(proposalId)];
                    && q.votesFor == p.votesFor + (if approve then w else 0)
                    && q.votesAgainst == p.votesAgainst + (if approve then 0 else w)
                    && q == p.(votesFor := q.votesFor, votesAgainst := q.votesAgainst))
  {
    if sender !in st.members then
      Err(Returned(Unauthorized))
    else
      var member := st.members[sender];
      var key := IdKey(proposalId);
      if key !in st.proposals then
        Err(Returned(Std(NotFound("Proposal"))))
      else
        var p := st.proposals[key];
        if approve then
          match CheckedAdd128(p.votesFor, member.weight)
          case None => Err(Panicked(ADD_OVERFLOW))
          case Some(t) => Ok(Step(st.(proposals := st.proposals[key := p.(votesFor := t)]), None))
        else
          match CheckedAdd128(p.votesAgainst, member.weight)
          case None => Err(Panicked(ADD_OVERFLOW))
          case Some(t) => Ok(Step(st.(proposals := st.proposals[key := p.(votesAgainst := t)]), None))
  }

  /** `execute_execute`. Anyone may call it. A stored proposal with more
      weight for than against is paid out if its amount fits the treasury
      balance, which is the constant 0: only a zero-amount proposal passes,
      gets `executed` set, and yields one transfer. A proposal without a
      majority is left as it is. `executed` and `voting_end` are not read. */
  function Execute(st: State, proposalId: U64): (r: Result<Step, Failure>)
    ensures IdKey(proposalId) !in st.proposals ==> r == Err(Returned(Std(NotFound("Proposal"))))
    ensures IdKey(proposalId) in st.proposals ==>
              var p := st.proposals[IdKey(proposalId)];
              && (p.votesFor <= p.votesAgainst ==> r == Ok(Step(st, None)))
              && (p.votesFor > p.votesAgainst && p.amount > TREASURY_BALANCE ==>
                    r == Err(Returned(Std(GenericErr(INSUFFICIENT_FUNDS)))))
              && (p.votesFor > p.votesAgainst && p.amount <= TREASURY_BALANCE ==>
                    && r.Ok?
                    && r.value.transfer == Some(Transfer(p.recipient, p.amount, DENOM))
                    && r.value.state.members == st.members
                    && r.value.state.proposalCount == st.proposalCount
                    && r.value.state.proposals.Keys == st.proposals.Keys
                    && r.value.state.proposals[IdKey(proposalId)] == p.(executed := true)
                    && (forall k :: k in st.proposals && k != IdKey(proposalId) ==>
                          r.value.state.proposals[k] == st.proposals[k]))
  {
    var key := IdKey(proposalId);
    if key !in st.proposals then
      Err(Returned(Std(NotFound("Proposal"))))
    else
      var p := st.proposals[key];
      if p.votesFor > p.votesAgainst then
        if TREASURY_BALANCE < p.amount then
          Err(Returned(Std(GenericErr(INSUFFICIENT_FUNDS))))
        else
          Ok(Step(st.(proposals := st.proposals[key := p.(executed := true)]),
                  Some(Transfer(p.recipient, p.amount, DENOM))))
      else
        Ok(Step(st, None))
  }

  /** `query_proposal`: the record stored under the id's key, or not-found. */
  function QueryProposal(st: State, proposalId: U64): (r: Result<Proposal, StdError>)
    ensures r.Ok? <==> IdKey(proposalId) in st.proposals
    ensures r.Ok? ==> r.value == st.proposals[IdKey(proposalId)]
    ensures r.Err? ==> r.error == NotFound("Proposal")
  {
    var key := IdKey(proposalId);
    if key in st.proposals then Ok(st.proposals[key]) else Err(NotFound("Proposal"))
  }

  /** `query_all_proposals`: every stored proposal, in ascending key order. */
  method QueryAllProposals(st: State) returns (r: seq<Proposal>)
    ensures |r| == |st.proposals|
    ensures ListedInKeyOrder(st.proposals, r)
  {
    r := Range(st.proposals);
  }

  /** `query_member`: the record stored under the address, or not-found. */
  function QueryMember(st: State, address: Addr): (r: Result<Member, StdError>)
    ensures r.Ok? <==> address in st.members
    ensures r.Ok? ==> r.value == st.members[address]
    ensures r.Err? ==> r.error == NotFound("Member")
  {
    if address in st.members then Ok(st.members[address]) else Err(NotFound("Member"))
  }

  /** `query_all_members`: every member record, in ascending address order. */
  method QueryAllMembers(st: State) returns (r: seq<Member>)
    ensures |r| == |st.members|
    ensures ListedInKeyOrder(st.members, r)
  {
    r := Range(st.members);
  }
}
