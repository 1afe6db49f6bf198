/**
 * Shared vocabulary of the council election: accounts, balances, block
 * numbers, vote indices, the parameters, the records kept per candidate and
 * per presentation window, and the reasons an entry point aborts.
 */
module CouncilTypes {

  /** An account. The source's sentinel `AccountId::default()` is not an
      account here: an empty candidate slot or an empty leaderboard entry is
      `None`. */
  type AccountId = nat
  type Balance = nat
  type BlockNumber = nat
  type VoteIndex = nat

  datatype Option<T> = None | Some(value: T)

  /** The eight tunable parameters. */
  datatype Params = Params(
    candidacyBond: Balance,
    votingBond: Balance,
    presentSlashPerVoter: Balance,
    carryCount: nat,
    presentationDuration: BlockNumber,
    votingPeriod: BlockNumber,
    termDuration: BlockNumber,
    desiredSeats: nat)

  /** A candidate's registration: the vote index at which it registered and
      the slot it occupies. */
  datatype Registration = Registration(since: VoteIndex, slot: nat)

  /** One council member and the block at which its term expires. */
  datatype Member = Member(who: AccountId, expiry: BlockNumber)

  /** The pending-finalise record: the block on which the window closes, the
      number of seats to fill and the expiring prefix of the council. */
  datatype Pending = Pending(end: BlockNumber, coming: nat, expiring: seq<Member>)

  /** A leaderboard entry: a verified stake total and the candidate holding it. */
  datatype Entry = Entry(total: Balance, who: Option<AccountId>)

  /** Everything that exists only while a presentation window is open. */
  datatype Window = Window(pending: Pending, stakes: seq<Balance>, leaderboard: seq<Entry>)

  datatype Error =
    | WindowActive
    | WindowInactive
    | StaleVoteIndex
    | InsufficientBalance
    | FundsLocked
    | SlotConflict
    | AlreadyCandidate
    | NotCandidate
    | NotVoter
    | PositionMismatch
    | TargetNotStale
    | ClaimTooLow

  /** What an entry point did: committed its writes, or aborted with no write. */
  datatype Outcome = Done | Abort(reason: Error)

  /** What an admissible presentation did. */
  datatype Verdict = Accepted | Slashed

  datatype Result<T> = Ok(value: T) | Fail(reason: Error)

  function BalanceOf(balances: map<AccountId, Balance>, who: AccountId): Balance
  {
    if who in balances then balances[who] else 0
  }
}
