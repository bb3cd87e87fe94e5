# Weighted-membership DAO contract: a Dafny model

This project models the core of a CosmWasm governance contract. Members with a
voting weight submit spending proposals and vote on them with their weight.
Anyone may then execute a proposal that has more weight for than against,
which pays its amount out of the treasury as a bank transfer.

The contract's storage is modelled as an immutable value `Dao.State` with
three parts:

- `members`: address string to `{address, weight}`;
- `proposals`: the decimal string of an id to a `Proposal`;
- `proposalCount`: an optional `u64` counter.

Each command is a pure function of the state and its arguments. `propose` and
`vote` also take the caller, who must be a member, and `propose` takes the
block time. `execute` takes no caller, since anyone may call it. A command returns either a `Step` or a `Failure`. A `Step`
holds the new state and at most one `Transfer`. A `Failure` is either a
returned `ContractError` or an overflow panic. The host keeps the old state on
any failure (`Lifecycle.Commit`). `Lifecycle.Run` follows a sequence of calls.

The model follows the code as written, including behaviour that looks
unintended. Each such behaviour is proved as a fact:

- Every new proposal gets id 0 and is stored under key "0", replacing the
  previous one. The counter still advances.
- Neither `vote` nor `execute` reads `voting_end` or `executed`. Nothing
  records who has voted.
- The treasury balance is the constant 0.
- `AlreadyExecuted` and `InvalidInput` are never produced.

The program's own text points the other way in places, and the model still
follows the code:

- The comment at `src/contract.rs:83` says the counter is raised "for a new
  unique ID", and the one at `:94` says the id "should be a unique ID"; the
  id is nevertheless the literal 0.
- `ContractError::AlreadyExecuted` (`src/contract.rs:24`) is declared but
  nothing constructs it.
- The `execute_proposal` unit test expects one message at `:348`, but the
  `unwrap()` at `:347` meets the "Insufficient funds" error first.

Modules, in dependency order:

- `Wrappers` (`wrappers.dfy`): `Option`, `Result`.
- `Ints` (`ints.dfy`): `u64`/`u128` ranges and checked addition.
- `Keys` (`keys.dfy`): `u64::to_string` as the proposal key, and its inverse.
- `Order` (`order.dfy`): ascending key order of storage ranges, and range listing.
- `Dao` (`state.dfy`): records and storage slots of `src/state.rs`.
- `Contract` (`contract.dfy`): entry points of `src/contract.rs`.
- `Lifecycle` (`lifecycle.dfy`): dispatch, commit, call sequences, scenarios.
- `Fixed` (`fixed.dfy`): corrected `propose` and `execute`, used only by the findings below.

Integer widths: `Uint128` addition panics on overflow. `u64` addition is
modelled as panicking too, as in a build with overflow checks enabled. Both
panics abort the call with no state change (`Failure.Panicked`).

## Model

| member | source | states |
|---|---|---|
| `Contract.Instantiate` | src/contract.rs:29-50 | The counter is 0 and no proposal exists. The member keys are exactly the listed addresses. Each address holds the weight of its last entry, with no duplicate check. Every record sits under its own address. |
| `Contract.SaveMembers` | src/contract.rs:42-47 | Saving the list in order: keys are the old keys plus the listed addresses. Unlisted keys are untouched. The last entry for an address wins. |
| `Lifecycle.DuplicateMemberLastWins` | src/contract.rs:42-47 | Two entries for "addr1" with weights 10 and 20 leave exactly one member, "addr1", with weight 20. |
| `Contract.Propose` | src/contract.rs:66-108 | A non-member gets `Unauthorized`. The call succeeds exactly when the caller is a member and neither the counter nor now + 604800 overflows u64. On success the counter (absent read as 0) grows by 1 and members are unchanged. Key "0" is added or replaced; every other key keeps its record. The new record has id 0, the given title and description, zero tallies and `executed = false`. Its amount is the given one or 0, its recipient the given one or the caller, and `voting_end` is now + 604800. No transfer is emitted. |
| `Contract.Vote` | src/contract.rs:110-137 | A non-member gets `Unauthorized`. An absent key gets not-found. Otherwise the call succeeds exactly when the chosen tally plus the caller's weight fits in u128, and panics otherwise. On success the weight is added to `votes_for` if `approve`, else to `votes_against`. Every other field, every other proposal, the members and the counter stay the same, and no transfer is emitted. |
| `Contract.Execute` | src/contract.rs:139-180 | An absent key gets not-found. With `votes_for <= votes_against` (ties included) the call succeeds with the state unchanged and no transfer. With a majority and an amount above the constant balance 0, it fails with "Insufficient funds". With a majority and amount 0, only `executed` becomes true and exactly one transfer `{recipient, amount, "udevcore"}` is emitted. |
| `Contract.QueryProposal` | src/contract.rs:194-198 | Succeeds exactly when the id's decimal key is stored, returning that record; otherwise not-found "Proposal". |
| `Contract.QueryAllProposals` | src/contract.rs:200-208 | Returns every stored proposal once, in ascending lexicographic key order. |
| `Contract.QueryMember` | src/contract.rs:210-214 | Succeeds exactly when the address is a key, returning that record; otherwise not-found "Member". |
| `Contract.QueryAllMembers` | src/contract.rs:216-224 | Returns every member record once, in ascending address order. |
| `Keys.DecimalString` | src/contract.rs:126 | The key of an id is a non-empty digit string whose first digit is '0' exactly for id 0. |
| `Keys.ParseDecimalString` | src/contract.rs:126 | Reading an id's key back as a numeral gives the id. |
| `Keys.DecimalStringOfParse` | src/contract.rs:126 | Every canonical numeral is the key of the id it reads as. |
| `Keys.IdKeyInjective` | src/contract.rs:126 | Two ids share a key exactly when they are equal. |
| `Order.Insert` | src/state.rs:27-29 | Inserting a new key into an ascending key list keeps it ascending and adds exactly that key. |
| `Order.SortedKeys` | src/state.rs:27-29 | Produces the map's keys, each once, in ascending order. |
| `Order.ListingUnique` | src/state.rs:27-29 | Two ascending lists of the same keys are equal, so a range listing is fully determined. |
| `Order.Range` | src/contract.rs:201-206 | An ascending range yields one value per key, ordered by key. |
| `Order.ListingDeterministic` | src/contract.rs:201-206 | Any two ascending listings of one map are the same sequence. |
| `Order.TenSortsBeforeTwo` | src/state.rs:27 | Key order is lexicographic, not numeric: "10" sorts before "2". |
| `Lifecycle.Dispatch` | src/contract.rs:59-63 | No command changes the members, and only `propose` changes the counter. No call fails with `AlreadyExecuted` or `InvalidInput`. Every transfer ever emitted comes from `execute`, has amount 0 and denom "udevcore". |
| `Lifecycle.DispatchCounter` | src/contract.rs:84-88 | One call raises a present counter by one exactly when it is an accepted proposal, and otherwise leaves it alone. |
| `Lifecycle.RunKeepsOnlySlotZero` | src/contract.rs:84-134 | From any state whose proposals sit only under "0" with id 0, any calls keep that shape and the members. The counter moves once per accepted proposal. |
| `Lifecycle.ReachableStates` | src/contract.rs:84-105 | After instantiation and any calls, members are those instantiation stored. At most one proposal exists, under "0" with id 0. The counter equals the number of accepted proposals, so it is not tied to any stored key. |
| `Lifecycle.ProposingKeepsOnlyLatest` | src/contract.rs:92-105 | Over any run of proposals, keys other than "0" keep their records and "0" is the only key that can appear. After an accepted last call, "0" holds exactly that call's fresh record: id 0, its title and description, zero tallies, `executed = false`, its amount or 0, its recipient or the caller, and `voting_end` = now + 604800. |
| `Lifecycle.MemberQueryStable` | src/contract.rs:210-214 | After instantiation and any calls, querying any address gives the same answer as right after instantiation. |
| `Lifecycle.SecondProposalReplacesFirst` | src/contract.rs:84-105 | Two accepted proposals from an empty map leave the counter 2 higher but store only the second proposal under "0". Id 1 is not found. |
| `Lifecycle.ProposeThenQuery` | src/contract.rs:194-198 | After an accepted proposal, reading id 0 returns the new record with the given title, description, recipient (or the caller) and amount (or 0). Every other id reads as before the call. |
| `Lifecycle.RepeatedVoteCountsTwice` | src/contract.rs:116-134 | The same member voting twice on one proposal adds twice their weight to the chosen tally. |
| `Lifecycle.ExecuteRepeatsTransfer` | src/contract.rs:144-168 | After a payout, executing again yields the same transfer again and the same state. |
| `Lifecycle.VoteAndExecuteKeepTerms` | src/contract.rs:126-134 | A vote or an execution keeps every key. It never lowers a tally, never clears `executed`, and never changes id, title, description, amount, recipient or `voting_end`. |
| `Lifecycle.ProposeResetsSlotZero` | src/contract.rs:93-105 | An accepted proposal resets the record under "0" to zero tallies and `executed = false`, whatever it held before. |
| `Lifecycle.UnitTestExecuteProposalFails` | src/contract.rs:317-349 | In the `execute_proposal` unit test scenario, propose and vote succeed. Execute fails with "Insufficient funds" and the proposal stays unexecuted. |
| `Lifecycle.RejectedProposalNotExecuted` | src/contract.rs:144-179 | Weights 10 and 20; the 20-weight member votes against. Execute succeeds with no transfer and no state change. |
| `Fixed.ProposeFixed` | src/contract.rs:84-105 | Corrected propose: the new record's id is the counter's value and it is stored under that id's key. The counter then grows by 1. |
| `Fixed.ProposeFixedKeepsEarlierProposals` | src/contract.rs:84-105 | With every record under its own id's key below the counter, a corrected proposal takes a fresh slot. It keeps every earlier record, grows the map by one, and keeps the invariant. |
| `Fixed.ProposeFixedIdsIncrease` | src/contract.rs:84-105 | Two corrected proposals get consecutive ids, and both stay stored. |
| `Fixed.ExecuteFixed` | src/contract.rs:139-180 | Corrected execute: an executed proposal fails with `AlreadyExecuted`. Otherwise the amount is compared with the given balance. A payout sets only `executed` and emits one transfer. |
| `Fixed.ExecuteFixedAtMostOnce` | src/contract.rs:24 | After a corrected payout, every later corrected execute fails with `AlreadyExecuted`, for any balance, including after an intervening vote. |
| `Fixed.UnitTestExecuteProposalFixed` | src/contract.rs:317-349 | With the corrected commands and a balance of 100, the unit test scenario emits the one transfer the test expects, and a second execute is refused. |

## Left out

- Entry-point attributes and the `add_attribute` calls on responses: they carry no state.
- `set_contract_version` and the unused `STATE` item: contract-version bookkeeping only.
- Serialization (`to_binary`, serde, JSON schema): queries return the records themselves, not their encoding.
- `BankMsg` / `CosmosMsg` construction: a transfer is the plain value `Contract.Transfer`.
- The host's storage and transactions: storage is three immutable values, and a failed call keeps the old state (`Lifecycle.Commit`).
- Storage read failures other than a missing key (corrupt bytes): `is_err()` and `unwrap_or_default` treat them like a missing entry, and the model has no corrupt state.
- Failure of storage writes during `instantiate`: no model of storage errors.
- `src/msg.rs`: its `Propose` lacks `recipient` and `amount`, which `src/contract.rs:60` reads. Command shapes follow `src/contract.rs`.
- The block time is a parameter of `Propose`. `Vote` and `Execute` do not take it, because the code does not read it.
- Whether the chain's bank module accepts a zero-amount send: that is host behaviour after the call.
- Contract.Vote: the not-found kind is written "Proposal". The storage library reports the record's Rust type name there.
- Contract.Execute: the not-found kind is written "Proposal", as for `Vote`.
- Contract.Propose: `u64` overflow of the counter or the deadline is modelled as a panic. This assumes overflow checks are enabled; without them the addition wraps.

## Findings

| source | as written | input that shows it | evidently intended | confidence | as-written member | corrected member |
|---|---|---|---|---|---|---|
| src/contract.rs:84-105 | each new proposal gets id 0 and key "0" while the counter advances | two accepted proposals from an empty map: the counter moves by 2, only the second is stored, id 1 is not found | the counter's value as id and key | high; not executed | `Lifecycle.SecondProposalReplacesFirst` | `Fixed.ProposeFixedKeepsEarlierProposals` |
| src/contract.rs:139-176 | `executed` is set but never read; `AlreadyExecuted` is never returned | executing a passing zero-amount proposal twice emits the transfer twice | the second execute fails with `AlreadyExecuted` | high; not executed | `Lifecycle.ExecuteRepeatsTransfer` | `Fixed.ExecuteFixedAtMostOnce` |
| src/contract.rs:153-156 | the balance checked is the constant 0 | the `execute_proposal` unit test (amount 100, one vote for) fails with "Insufficient funds"; the test expects one message | compare against the contract's real balance; the test would then also need a mock holding 100 udevcore, since `mock_dependencies()` gives the contract no coins | medium; not executed | `Lifecycle.UnitTestExecuteProposalFails` | `Fixed.UnitTestExecuteProposalFixed` |

The corrected commands live only in module `Fixed`. The rest of the model stays with the code as written.
