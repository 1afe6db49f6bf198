# Council approval-voting election

This project is a Dafny model of the council election in the demo runtime,
`demo/runtime/src/runtime/council.rs`. It proves properties of that model.

Accounts register as **candidates** in a slot array that can have holes. A
registration costs a candidacy bond. **Voters** pay a voting bond once. Each
voter then keeps an approval bit-vector that is indexed by candidate slot.

At the end of every block the election does two things:

- **Start a tally.** On a voting-period boundary that is the next tally
  block, a **presentation window** opens when the members that are not
  expiring leave seats empty. The window snapshots every voter's stake and
  sets up a zero-filled leaderboard. It has one entry per empty seat plus the
  carried runners-up.
- **Finalise.** While the window is open, anyone may **present** a total for a
  candidate. A presentation is checked first: the vote index must be current,
  a window must be open, the presenter must afford the slash, the total must
  beat the lowest entry, and the candidate must be registered. A claim that
  fails a check is refused and nothing changes. A claim that passes them is
  accepted when its total equals the one recomputed from the snapshot and the
  candidate is not yet on the board; the new entry then replaces the lowest.
  Any other such claim costs the presenter a slash. When the window ends:
  - the top non-empty entries are seated for a term and get their bond back;
  - the expiring members leave;
  - the next non-empty entries stay candidates in their slots;
  - every other registration is dropped;
  - the vote index moves on by one.

Voters can retract and get their bond back. A stale voter can be pruned by
another voter, who then earns the bond. A failed prune costs the pruner their
own place instead.

Two consequences of these rules are stated as lemmas on the model:

- A member whose expiry is not a voting-period boundary never leaves. The next
  tally is the boundary after that expiry. A tally only counts members whose
  expiry is the tally block itself, so it opens no window, and the next tally
  then stays at that past block (`Council.StalledScheduleExample`,
  `Council.OffBoundaryMembersStay`).
- Suppose more seats are wanted while a window is open and the window ends on a
  period boundary. At that end the hook starts a tally before it closes the
  window. The new window replaces the open one with a later end and a zero
  board, so the open window is never finalised
  (`Council.RetallyOverwritesWindow`).

## Structure

| file | module | content |
|---|---|---|
| types.dfy | `CouncilTypes` | accounts, balances, parameters, registrations, council members, the window record, leaderboard entries, abort reasons |
| schedule.dfy | `Schedule` | `NextVoteFrom` and `NextTally`, the block arithmetic (pure) |
| members.dfy | `Members` | the expiring prefix, seating the elected, removing a member (pure) |
| slots.dfy | `Slots` | the slot array, registrations, voter swap-remove, and the two clean-up loops of finalisation (methods over sequences) |
| tally.dfy | `Tally` | the presented-total fold and the pruning check (pure) |
| leaderboard.dfy | `Leaderboard` | acceptance with a stable re-sort, and winners and runners-up read off the top (pure) |
| ledger.dfy | `Ledger` | the bond-refund loop and its specification |
| council.dfy | `Council` | the class `Election`, whose fields are the stored items; the entry points as methods; the invariant `Inv` and its preservation lemmas; the specification `Finalised` of the window close |

**Every entry point validates, then commits.** A method either returns
`Abort(reason)` and changes nothing, or writes exactly the new store given
in its `ensures`. The failed assertions of the source are these abort
reasons. Each method states which reason applies, in the source's order of
checks.

**The invariant.** `Council.Inv` holds after every entry point:

- every occupied slot holds a registered candidate whose registration names
  that slot, and every registration names a slot holding its candidate;
- the candidate count is the number of occupied slots;
- the voter list has no repetition and agrees with the last-active and
  approval records;
- an open window has a non-empty, ascending, well-formed leaderboard whose
  candidates are distinct and registered.

The runtime's `expect`s on registrations rely on this invariant (council.rs
lines 291 and 509).

## Model

| member | source | states |
|---|---|---|
| Schedule.NextVoteFrom | demo/runtime/src/runtime/council.rs:162-166 | the result is a multiple of the voting period, at least `n` and less than `n` plus one period |
| Schedule.NextVoteFromIsLeast | demo/runtime/src/runtime/council.rs:162-166 | no period boundary lies between `n` and the result, so the rounding goes to the least boundary at or after `n` |
| Schedule.NextTally | demo/runtime/src/runtime/council.rs:168-196 | `None` exactly when no seat is wanted; otherwise a period boundary. With too few seats it falls within one period after the next possible block: `now`, or the pending window's end while a window is open. With enough seats it is deferred: to within one period after the next possible block plus a term when the incoming members alone fill the wanted seats, and otherwise to within one period after the expiry of the member whose leaving brings the council below the wanted size |
| Schedule.FirstTallyExample | demo/runtime/src/runtime/council.rs:596-602 | with two seats wanted, an empty council and a period of 4, the first tally asked at block 1 is block 4 |
| Members.Expiring | demo/runtime/src/runtime/council.rs:453 | the expiring members are the longest prefix of the council whose expiry is the current block |
| Members.Seat | demo/runtime/src/runtime/council.rs:493-498 | each elected account becomes a member with the new expiry, in order |
| Members.NextCouncilShape | demo/runtime/src/runtime/council.rs:489-500 | the new council is the old one without its expiring prefix, in order, followed by the elected with expiry `now + termDuration` |
| Members.NextCouncil | demo/runtime/src/runtime/council.rs:489-500 | the new council is as long as the council less the expiring members (at most all of them), plus the elected |
| Members.WithoutMember | demo/runtime/src/runtime/council.rs:404-410 | every seat of `who` is removed and every other member keeps its multiplicity |
| Members.WithoutMemberAppend | demo/runtime/src/runtime/council.rs:405-408 | the filter distributes over concatenation, so the members that stay keep their relative order |
| Members.WithoutAbsentMember | demo/runtime/src/runtime/council.rs:405-408 | a council where `who` holds no seat is left exactly as it was |
| Members.WithoutMemberKeepsOrder | demo/runtime/src/runtime/council.rs:405-408 | removing a member keeps a council ordered by expiry |
| Slots.OccupiedAppend | demo/runtime/src/runtime/council.rs:342-348 | appending a candidate adds one to the number of occupied slots |
| Slots.OccupiedFill | demo/runtime/src/runtime/council.rs:344-348 | filling a hole adds one to the number of occupied slots |
| Slots.NoHoleIffFull | demo/runtime/src/runtime/council.rs:333-336 | the count equals the array length exactly when the array has no hole, which is what the append-position test relies on |
| Slots.LastOccupied | demo/runtime/src/runtime/council.rs:522 | the position of the last occupied slot, or `None` exactly when every slot is a hole |
| Slots.Shrink | demo/runtime/src/runtime/council.rs:521-524 | truncation never lengthens the array |
| Slots.ShrinkKeepsOccupants | demo/runtime/src/runtime/council.rs:521-524 | truncation keeps every occupant in its slot and keeps the count; it leaves no trailing hole unless nothing is occupied |
| Slots.SwapRemove | demo/runtime/src/runtime/council.rs:305 | one shorter; the last voter moves into the removed position and every other position is unchanged |
| Slots.SwapRemoveMultiset | demo/runtime/src/runtime/council.rs:305 | exactly one occurrence of the removed voter leaves the list |
| Slots.SwapRemoveExact | demo/runtime/src/runtime/council.rs:304-308 | on a list without repetition, the result has none, and it holds exactly the other voters |
| Slots.RetractionOrderExample | demo/runtime/src/runtime/council.rs:842-860 | three retractions reorder the voter list as the retraction test observes |
| Slots.KeepOnly | demo/runtime/src/runtime/council.rs:502-514 | same length; a slot keeps its occupant exactly when the occupant is listed, and every other slot becomes a hole |
| Slots.KeepOnlyOccupied | demo/runtime/src/runtime/council.rs:502-514 | keeping only distinct, registered candidates leaves exactly one occupied slot per kept candidate, the count the runner-up loop stores |
| Slots.PlaceRunnersUp | demo/runtime/src/runtime/council.rs:504-514 | the loop writes each runner-up back into its registered slot of a fresh array of holes; the result keeps exactly the runners-up, and the count equals both their number and the occupied slots |
| Slots.DropDiscarded | demo/runtime/src/runtime/council.rs:515-520 | the registrations left are exactly those whose candidate still sits in its slot of the new array, unchanged |
| Slots.Restrict | demo/runtime/src/runtime/council.rs:515-520 | the kept registrations are exactly those of listed candidates, unchanged |
| Slots.RemainingAreKept | demo/runtime/src/runtime/council.rs:505-520 | after the runner-up loop, the clean-up loop leaves exactly the runners-up's registrations |
| Slots.ShrinkKeepsRegistrations | demo/runtime/src/runtime/council.rs:521-525 | truncation keeps slots and registrations in agreement and keeps the count |
| Slots.ClearCandidates | demo/runtime/src/runtime/council.rs:502-526 | the candidate clean-up yields the truncated array of runners-up, their number as the count, and only their registrations |
| Tally.ActualTotal | demo/runtime/src/runtime/council.rs:369-378 | a recomputed total never exceeds the sum of the snapshot |
| Tally.ActualTotalZeroIff | demo/runtime/src/runtime/council.rs:369-378 | the total is zero exactly when every backing voter's snapshot stake is zero |
| Tally.ActualTotalIgnoresNonBackers | demo/runtime/src/runtime/council.rs:369-378 | the stake of a voter who does not back the candidate does not affect the total (inactive since registration, or not approving the slot) |
| Tally.SimpleTallyTotals | demo/runtime/src/runtime/council.rs:929-937 | the totals of the single-round test are 8 and 38 |
| Tally.BacksCurrentCandidate | demo/runtime/src/runtime/council.rs:285-292 | true exactly when some approved, occupied slot, paired up to the shorter list, holds a candidate registered no later than the target's last activity |
| Leaderboard.Initial | demo/runtime/src/runtime/council.rs:463-464 | a board of `size` zero entries, which is valid |
| Leaderboard.Holds | demo/runtime/src/runtime/council.rs:379 | true exactly when some entry names the candidate |
| Leaderboard.Below | demo/runtime/src/runtime/council.rs:383 | the entries before the returned position are below the total and the entry there is not |
| Leaderboard.Accept | demo/runtime/src/runtime/council.rs:382-383 | the re-sorted board is as long as the old one |
| Leaderboard.AcceptPosition | demo/runtime/src/runtime/council.rs:382-383 | after acceptance the board is as long as before. Below the new entry's position are the old entries with a smaller total, shifted down one; above it the old entries stay in place. The multiset of the result is the old one less the lowest entry, plus the new one |
| Leaderboard.AcceptSorted | demo/runtime/src/runtime/council.rs:382-383 | the re-sorted board is ascending |
| Leaderboard.AcceptDistinct | demo/runtime/src/runtime/council.rs:379-383 | a candidate not yet on the board does not end up on it twice |
| Leaderboard.AcceptKeepsBoard | demo/runtime/src/runtime/council.rs:379-385 | acceptance keeps the length and validity, and puts the candidate on the board |
| Leaderboard.TopDown | demo/runtime/src/runtime/council.rs:481-484 | the walk from the top is no longer than the board, and it stops only at an empty entry or at the bottom |
| Leaderboard.Winners | demo/runtime/src/runtime/council.rs:481-484 | at most `coming` entries are elected |
| Leaderboard.RunnersUp | demo/runtime/src/runtime/council.rs:502-508 | the winners followed by the runners-up are the whole walk from the top; there is a runner-up only once all `coming` seats are filled |
| Leaderboard.TopDownIsNonEmptySuffix | demo/runtime/src/runtime/council.rs:481-484 | on an ascending board, the top-down walk lists the non-empty entries from the highest, and everything below them is empty |
| Leaderboard.WinnersOutrankRunnersUp | demo/runtime/src/runtime/council.rs:481-484 | at most `coming` winners, fewer only when there is no runner-up; no runner-up outranks a winner; together they are all non-empty entries |
| Leaderboard.Candidates | demo/runtime/src/runtime/council.rs:498 | an account is listed exactly when some entry names it |
| Leaderboard.CandidatesOfOccupied | demo/runtime/src/runtime/council.rs:498 | for entries that are all occupied, the accounts are listed position by position |
| Leaderboard.TopCandidates | demo/runtime/src/runtime/council.rs:493-509 | the elected then the kept accounts are those of the non-empty entries, read from the top down |
| Leaderboard.ListedDistinct | demo/runtime/src/runtime/council.rs:505-509 | accounts read off a board without repeated candidates are distinct |
| Leaderboard.ListedHeld | demo/runtime/src/runtime/council.rs:505-509 | accounts read off a board each hold an entry on it |
| Leaderboard.ElectedAndKept | demo/runtime/src/runtime/council.rs:481-509 | the elected and the kept do not repeat, do not overlap, and each holds an entry |
| Leaderboard.SimpleTallyBoard | demo/runtime/src/runtime/council.rs:935-942 | the two presentations of the single-round test give the board the test observes, and they elect eve then bob |
| Leaderboard.RunnersUpBoard | demo/runtime/src/runtime/council.rs:991-1001 | on the full board of the runners-up test, alice and eve are elected and dave and charlie are kept |
| Ledger.CreditExact | demo/runtime/src/runtime/council.rs:481-487 | crediting a list without repetition adds the amount exactly to the listed accounts and leaves every other balance alone |
| Ledger.RefundAll | demo/runtime/src/runtime/council.rs:480-487 | the refund loop credits the bond to each account in turn |
| Council.StakeSnapshot | demo/runtime/src/runtime/council.rs:458-460 | one stake per voter, in list order, each that voter's balance |
| Council.Enter | demo/runtime/src/runtime/council.rs:341-346 | the account is in `slot`, the array grows only for the append position, and every other slot is unchanged |
| Council.EnterKeepsRegistrations | demo/runtime/src/runtime/council.rs:341-349 | entering an unregistered account keeps slots and registrations in agreement and occupies one more slot |
| Council.EnterSlotsRegistered | demo/runtime/src/runtime/council.rs:341-349 | after the entry every occupied slot is registered to itself |
| Council.EnterRegistrationsPlaced | demo/runtime/src/runtime/council.rs:341-349 | after the entry every registration points to its own slot |
| Council.WindowValidGrows | demo/runtime/src/runtime/council.rs:349 | adding registrations keeps an open window valid |
| Council.SubmitKeepsInv | demo/runtime/src/runtime/council.rs:324-350 | a successful candidacy keeps the invariant |
| Council.ApproveKeepsInv | demo/runtime/src/runtime/council.rs:244-264 | recording a vote keeps the invariant, and the voter is then listed |
| Council.RemoveKeepsInv | demo/runtime/src/runtime/council.rs:304-308 | removing a voter with its records keeps the invariant |
| Council.AcceptKeepsWindow | demo/runtime/src/runtime/council.rs:379-384 | an accepted presentation keeps the window valid |
| Council.AcceptKeepsInv | demo/runtime/src/runtime/council.rs:379-384 | an accepted presentation keeps the invariant |
| Council.LedgerKeepsInv | demo/runtime/src/runtime/council.rs:386 | a balance change keeps the invariant |
| Council.OpenKeepsInv | demo/runtime/src/runtime/council.rs:455-464 | opening a window with a non-empty board keeps the invariant |
| Council.Election.constructor | demo/runtime/src/runtime/council.rs:583-612 | genesis has vote index 0, no council, no candidates, no voters and no window, and the invariant holds |
| Council.Election.PresentationActive | demo/runtime/src/runtime/council.rs:147-149 | true exactly when a window is open |
| Council.Election.NextTally | demo/runtime/src/runtime/council.rs:168-196 | `None` exactly when no seat is wanted; otherwise a period boundary, and with no window open and too few members it falls within one period of `now` |
| Council.Election.ActualTotal | demo/runtime/src/runtime/council.rs:369-378 | the total recomputed for a registered candidate in the open window never exceeds the sum of the snapshot |
| Council.Election.SubmitCandidacy | demo/runtime/src/runtime/council.rs:324-350 | aborts if already a candidate, if the balance is below the bond, if the funds are locked, or if the slot is neither the append position of a hole-free array nor a hole. Otherwise it enters the account in the slot, adds one to the count, registers it at the current vote index, and debits exactly the bond |
| Council.Election.SetApprovals | demo/runtime/src/runtime/council.rs:244-264 | aborts if a window is open, if the index is stale, or if a first-time voter cannot pay the bond. Otherwise the approvals are replaced wholesale and last-active is set; a first-time voter is debited the bond and appended once |
| Council.Election.RemoveVoter | demo/runtime/src/runtime/council.rs:304-308 | swap-removes the voter and deletes its approvals and last-active record; the list is one shorter and holds the other voters |
| Council.Election.RetractVoter | demo/runtime/src/runtime/council.rs:311-319 | aborts if a window is open, if the caller is not a voter, or if the position does not name the caller. Otherwise it removes the caller by swap-remove and refunds exactly the voting bond |
| Council.Election.KillInactiveVoter | demo/runtime/src/runtime/council.rs:271-301 | aborts on an open window, a missing voter, a stale index, a target that is not stale, or a wrong position. Otherwise exactly one voter goes: the target when the pruning check fails, and then the caller earns the bond; the caller otherwise, with no refund |
| Council.Election.Present | demo/runtime/src/runtime/council.rs:355-388 | fails on a stale index, no window, a balance below the slash, a claim not above the lowest entry, or an unregistered candidate. Otherwise it accepts exactly when the claim equals the recomputed total and the candidate has no entry, which re-sorts the board at the same length; in every other case it debits exactly the slash |
| Council.Started | demo/runtime/src/runtime/council.rs:449-466 | starting a tally changes at most the window; when it opens one, the snapshot has one stake per voter |
| Council.Election.StartTally | demo/runtime/src/runtime/council.rs:449-466 | the new store is `Started` of the old one, and the invariant holds: it opens a window exactly when the staying members leave a seat empty. The window holds the closing block, the number of empty seats, the expiring prefix, the stake snapshot, and a zero board sized for the empty seats plus the carried runners-up |
| Council.Election.FinaliseTally | demo/runtime/src/runtime/council.rs:472-528 | the new store is `Finalised` of the old one, and the invariant holds |
| Council.Election.EndBlock | demo/runtime/src/runtime/council.rs:431-445 | a tally starts exactly on a period boundary that is the next tally block, and the store is then `Started` of the old one. A window closes exactly when the store so reached has a window ending at `now`, and the new store is then `Finalised` of it; otherwise nothing else changes. The vote index rises by one exactly when a window closes |
| Council.Election.SetDesiredSeats | demo/runtime/src/runtime/council.rs:397-399 | only the desired seat count changes |
| Council.Election.RemoveMember | demo/runtime/src/runtime/council.rs:404-410 | only the council changes, and `who` holds no seat afterwards |
| Council.Election.SetPresentationDuration | demo/runtime/src/runtime/council.rs:414-416 | only the presentation duration changes |
| Council.Election.SetTermDuration | demo/runtime/src/runtime/council.rs:420-422 | only the term duration changes |
| Council.DistinctParts | demo/runtime/src/runtime/council.rs:505-508 | the two parts of a list without repetition have none and share nothing |
| Council.RunnersUpRegistered | demo/runtime/src/runtime/council.rs:505-509 | the elected and the kept do not repeat or overlap, and every runner-up is registered, so the `expect` cannot fail |
| Council.FinalisedFrom | demo/runtime/src/runtime/council.rs:472-528 | the closed store assembled from the refund, the new council and the candidate clean-up is `Finalised` |
| Council.Finalised | demo/runtime/src/runtime/council.rs:472-528 | closing the window moves the vote index on by one and leaves the parameters, locked accounts, voters, approvals and last-active records unchanged |
| Council.FinaliseKeepsInv | demo/runtime/src/runtime/council.rs:472-528 | closing the window keeps the invariant, on any valid store with an open window |
| Council.KeptCount | demo/runtime/src/runtime/council.rs:505-514 | on a valid store with an open window, the runners-up fill exactly as many slots as there are runners-up |
| Council.OffBoundaryMembersStay | demo/runtime/src/runtime/council.rs:449-466 | at a tally block, a council whose first member's expiry is not a period boundary has no expiring member; with the wanted seats filled, starting the tally changes nothing |
| Council.StalledScheduleExample | demo/runtime/src/runtime/council.rs:170-196 | with the council of the single-round test (both expiring at 11), two seats, a term of 5 and a period of 4, the next tally, with no window open, is block 12 at every current block, and nobody expires at 12 |
| Council.RetallyOverwritesWindow | demo/runtime/src/runtime/council.rs:431-466 | with no council, a window ending at a period boundary and more seats wanted than it fills, the next tally is that block, and starting it replaces the window with one ending a presentation period later and a zero board |
| Council.FinalisedRegistrationsAndLedger | demo/runtime/src/runtime/council.rs:481-520 | after the close exactly the runners-up are registered. Each elected account gains exactly one candidacy bond, and every other balance is unchanged |

## Left out

- The byte-keyed storage and its key encoding (council.rs lines 72-96) are not modelled. Each stored item is a typed field of `Election`. A missing item is an empty map entry, an empty sequence or `None`, as `get_or_default` would read it.
- The staking module is reduced to two things: a balance map (a missing account has balance 0) and a set of locked accounts. `unlock_block` is not part of this model; being in `locked` stands for "not liquid".
- The current block number is not read from the system module. It is the `now` parameter of `StartTally`, `FinaliseTally`, `EndBlock` and `NextTally`.
- The sentinel `AccountId::default()` is modelled as `None`, both in the slot array and in leaderboard entries. So the default account cannot be a candidate here. In the runtime it could register in a slot, and that slot would then look like a hole.
- The stored `expiring` list is written as pairs of account and expiry, but read back as a list of accounts. The model stores the pairs; only their number is ever used.
- Council.Election.EndBlock: requires that an open window's expiring list is no longer than the council. The runtime computes `c.len() - leavers.len()` in `usize` there, which cannot underflow unless `remove_member` shrank the council during a window; that underflow is not modelled.
- Council.Election.FinaliseTally: requires an open window, as the runtime's `expect` on the pending record does; the end-of-block hook calls it only then.
- Council.Election.constructor: requires a positive voting period, because the runtime's `%` and `/` by the voting period are undefined for zero. The test genesis (council.rs lines 540-580) is replaced by arbitrary parameters, balances and locked accounts.
- Council.Election.EndBlock: `tallied` and `closed` are ghost outputs. They say which branch ran; the runtime returns nothing.
- Fixed-width integers (`u32` counts, `u64` balances and block numbers) are unbounded here. The runtime's `b - bond` subtractions are guarded by the balance checks, so nothing wraps. No `u32`/`u64` overflow is modelled. Examples are `balance + bond`, `present_slash_per_voter * voters.len()`, the stake sum, `n + voting_period - 1`, `next_possible + term_duration`, `number + presentation_duration` and `vote_index + 1`.
- The order of storage writes inside an entry point is not modelled. Each entry point commits its new store at once, which gives the same final state because nothing reads in between.
- The `session`, `Proposal` and `enact_proposal` imports are unused by the election, and the getters other than `presentation_active`, `next_vote_from` and `next_tally` only read a stored item. They are not separate members.
- Leaderboard.Accept, Leaderboard.TopDown, Leaderboard.Winners: their own contracts state only lengths and bounds. The position and contents facts are stated once, in `AcceptPosition`, `TopDownIsNonEmptySuffix` and `WinnersOutrankRunnersUp`. As contracts of these functions, those facts would be repeated at every use and would make the proofs that use them too costly.
- Slots.Shrink: its own contract states only that the array does not grow. What truncation keeps is stated in `ShrinkKeepsOccupants` and `ShrinkKeepsRegistrations`.
- The runtime tests are not separate members; only the observations listed in the table above are stated, as lemmas on concrete values.
