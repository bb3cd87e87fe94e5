/** The contract's persistent state: the `Proposal` and `Member` records and
    the three storage slots that hold them. The unused `STATE` item carries no
    data and is not part of this model. */
module Dao {
  import opened Wrappers
  import opened Ints

  /** A bech32 account address, compared as a plain string. */
  type Addr = string

  datatype Member = Member(address: Addr, weight: U128)

  datatype Proposal = Proposal(
    id: U64,
    title: string,
    description: string,
    votesFor: U128,
    votesAgainst: U128,
    executed: bool,
    amount: U128,
    recipient: Addr,
    votingEnd: U64)    // UNIX seconds

  /** The storage slots `PROPOSALS` (keyed by the id's decimal string),
      `PROPOSAL_COUNT` (absent until first written) and `MEMBERS` (keyed by
      address). No invariant ties the counter to the proposal keys. */
  datatype State = State(
    proposals: map<string, Proposal>,
    proposalCount: Option<U64>,
    members: map<string, Member>)

  /** The counter as a load with `unwrap_or_default` reads it: absent is 0. */
  function CountOrDefault(st: State): (n: U64)
  {
    st.proposalCount.GetOr(0)
  }

  /** Each member record sits under its own address. */
  ghost predicate MembersKeyedByAddress(members: map<string, Member>) {
    forall k :: k in members ==> members[k].address == k
  }
}
