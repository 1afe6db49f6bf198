/**
 * The council election as one state object: the public entry points
 * (candidacy, approvals, retraction, pruning, presentation), the privileged
 * setters, and the end-of-block hook that opens and closes presentation
 * windows. Every entry point validates first and then commits; an aborted
 * call changes nothing.
 */
module Council {
  import opened CouncilTypes
  import opened Slots
  import Schedule
  import Tally
  import Leaderboard
  import Members
  import Ledger

  /** Every stored item at once, to state what an entry point leaves alone. */
  datatype Stored = Stored(
    params: Params,
    activeCouncil: seq<Member>,
    voteIndex: VoteIndex,
    approvalsOf: map<AccountId, seq<bool>>,
    registerInfoOf: map<AccountId, Registration>,
    lastActiveOf: map<AccountId, VoteIndex>,
    voters: seq<AccountId>,
    candidates: seq<Option<AccountId>>,
    candidateCount: nat,
    window: Option<Window>,
    balances: map<AccountId, Balance>,
    locked: set<AccountId>)

  /** The voter list has no repetition and lists exactly the accounts with a
      last-active record, which are exactly those with an approval vector. */
  ghost predicate VotersRecorded(voters: seq<AccountId>, lastActive: map<AccountId, VoteIndex>,
                                 approvals: map<AccountId, seq<bool>>)
  {
    && Distinct(voters)
    && (forall v :: v in lastActive <==> v in voters)
    && approvals.Keys == lastActive.Keys
  }

  /** An open window has a non-empty valid leaderboard whose candidates are
      all registered. */
  ghost predicate WindowValid(w: Window, reg: map<AccountId, Registration>)
  {
    && |w.leaderboard| >= 1
    && Leaderboard.Valid(w.leaderboard)
    && forall i :: 0 <= i < |w.leaderboard| && w.leaderboard[i].who.Some? ==> w.leaderboard[i].who.value in reg
  }

  /** The stake snapshot: each voter's balance, in voter-list order. */
  function StakeSnapshot(voters: seq<AccountId>, balances: map<AccountId, Balance>): (stakes: seq<Balance>)
    ensures |stakes| == |voters|
    ensures forall i :: 0 <= i < |voters| ==> stakes[i] == BalanceOf(balances, voters[i])
  {
    seq(|voters|, i requires 0 <= i < |voters| => BalanceOf(balances, voters[i]))
  }

  /** The election invariant over the whole store. */
  ghost predicate Inv(s: Stored)
  {
    && s.params.votingPeriod > 0
    && SlotsRegistered(s.candidates, s.registerInfoOf)
    && RegistrationsPlaced(s.candidates, s.registerInfoOf)
    && s.candidateCount == Occupied(s.candidates)
    && VotersRecorded(s.voters, s.lastActiveOf, s.approvalsOf)
    && (s.window.Some? ==> WindowValid(s.window.value, s.registerInfoOf))
  }

  /** The slot array after `who` registers in `slot`: appended at the end,
      or filling the hole at `slot`. */
  function Enter(slots: seq<Option<AccountId>>, slot: nat, who: AccountId): (r: seq<Option<AccountId>>)
    requires slot <= |slots|
    ensures |r| == if slot == |slots| then |slots| + 1 else |slots|
    ensures r[slot] == Some(who)
    ensures forall i :: 0 <= i < |slots| && i != slot ==> r[i] == slots[i]
  {
    if slot == |slots| then slots + [Some(who)] else slots[slot := Some(who)]
  }

  /** Registering an unregistered account in the append position of a
      hole-free array, or in a hole, keeps the invariant and adds one to the
      candidate count. */
  lemma SubmitKeepsInv(s: Stored, signed: AccountId, slot: nat, balances: map<AccountId, Balance>)
    requires Inv(s) && signed !in s.registerInfoOf
    requires (slot == s.candidateCount && s.candidateCount == |s.candidates|)
             || (slot < |s.candidates| && s.candidates[slot].None?)
    ensures Inv(s.(candidates := Enter(s.candidates, slot, signed),
                   candidateCount := s.candidateCount + 1,
                   registerInfoOf := s.registerInfoOf[signed := Registration(s.voteIndex, slot)],
                   balances := balances))
  {
    EnterKeepsRegistrations(s.candidates, s.registerInfoOf, slot, signed, s.voteIndex);
    if s.window.Some? {
      WindowValidGrows(s.window.value, s.registerInfoOf, s.registerInfoOf[signed := Registration(s.voteIndex, slot)]);
    }
  }

  /** Entering an unregistered account in an admissible slot keeps slots and
      registrations in step and occupies one more slot. */
  lemma EnterKeepsRegistrations(slots: seq<Option<AccountId>>, reg: map<AccountId, Registration>,
                                slot: nat, signed: AccountId, since: VoteIndex)
    requires SlotsRegistered(slots, reg) && RegistrationsPlaced(slots, reg) && signed !in reg
    requires slot == |slots| || (slot < |slots| && slots[slot].None?)
    ensures SlotsRegistered(Enter(slots, slot, signed), reg[signed := Registration(since, slot)])
    ensures RegistrationsPlaced(Enter(slots, slot, signed), reg[signed := Registration(since, slot)])
    ensures Occupied(Enter(slots, slot, signed)) == Occupied(slots) + 1
  {
    if slot == |slots| {
      OccupiedAppend(slots, signed);
    } else {
      OccupiedFill(slots, slot, signed);
    }
    EnterSlotsRegistered(slots, reg, slot, signed, since);
    EnterRegistrationsPlaced(slots, reg, slot, signed, since);
  }

  lemma EnterSlotsRegistered(slots: seq<Option<AccountId>>, reg: map<AccountId, Registration>,
                             slot: nat, signed: AccountId, since: VoteIndex)
    requires SlotsRegistered(slots, reg) && slot <= |slots| && signed !in reg
    ensures SlotsRegistered(Enter(slots, slot, signed), reg[signed := Registration(since, slot)])
  {
    var entered, reg' := Enter(slots, slot, signed), reg[signed := Registration(since, slot)];
    forall i | 0 <= i < |entered| && entered[i].Some?
      ensures entered[i].value in reg' && reg'[entered[i].value].slot == i
    {
      if i != slot {
        assert slots[i] == entered[i];
      }
    }
  }

  lemma EnterRegistrationsPlaced(slots: seq<Option<AccountId>>, reg: map<AccountId, Registration>,
                                 slot: nat, signed: AccountId, since: VoteIndex)
    requires SlotsRegistered(slots, reg) && RegistrationsPlaced(slots, reg) && signed !in reg
    requires slot == |slots| || (slot < |slots| && slots[slot].None?)
    ensures RegistrationsPlaced(Enter(slots, slot, signed), reg[signed := Registration(since, slot)])
  {
    var entered, reg' := Enter(slots, slot, signed), reg[signed := Registration(since, slot)];
    forall c | c in reg'
      ensures reg'[c].slot < |entered| && entered[reg'[c].slot] == Some(c)
    {
      if c != signed {
        var k := reg[c].slot;
        assert reg'[c] == reg[c] && slots[k] == Some(c) && k != slot;
      }
    }
  }

  /** A window stays valid when registrations are only added. */
  lemma WindowValidGrows(w: Window, reg: map<AccountId, Registration>, reg': map<AccountId, Registration>)
    requires WindowValid(w, reg) && reg.Keys <= reg'.Keys
    ensures WindowValid(w, reg')
  {
  }

  /** Recording a vote keeps the invariant; a first-time voter joins the end
      of the voter list. */
  lemma ApproveKeepsInv(s: Stored, signed: AccountId, votes: seq<bool>, index: VoteIndex,
                        voters: seq<AccountId>, balances: map<AccountId, Balance>)
    requires Inv(s)
    requires voters == if signed in s.lastActiveOf then s.voters else s.voters + [signed]
    ensures Inv(s.(voters := voters, balances := balances,
                   approvalsOf := s.approvalsOf[signed := votes],
                   lastActiveOf := s.lastActiveOf[signed := index]))
    ensures signed in voters
  {
    forall i, j | 0 <= i < j < |voters|
      ensures voters[i] != voters[j]
    {
      if j == |s.voters| {
        assert s.voters[i] in s.voters;
      }
    }
  }

  /** Removing the voter at `index` by swap-remove, with its records, keeps
      the invariant. */
  lemma RemoveKeepsInv(s: Stored, voter: AccountId, index: nat)
    requires Inv(s) && index < |s.voters| && s.voters[index] == voter
    ensures Inv(s.(voters := SwapRemove(s.voters, index),
                   approvalsOf := s.approvalsOf - {voter},
                   lastActiveOf := s.lastActiveOf - {voter}))
  {
    SwapRemoveExact(s.voters, index);
  }

  /** An accepted presentation keeps the invariant. */
  lemma AcceptKeepsInv(s: Stored, total: Balance, candidate: AccountId)
    requires Inv(s) && s.window.Some? && candidate in s.registerInfoOf
    requires total > s.window.value.leaderboard[0].total
    requires !Leaderboard.Holds(s.window.value.leaderboard, candidate)
    ensures Inv(s.(window := Some(s.window.value.(
                     leaderboard := Leaderboard.Accept(s.window.value.leaderboard, Entry(total, Some(candidate)))))))
  {
    AcceptKeepsWindow(s.window.value, s.registerInfoOf, total, candidate);
  }

  /** An accepted presentation for a registered candidate keeps the window valid. */
  lemma AcceptKeepsWindow(w: Window, reg: map<AccountId, Registration>, total: Balance, candidate: AccountId)
    requires WindowValid(w, reg) && candidate in reg
    requires total > w.leaderboard[0].total && !Leaderboard.Holds(w.leaderboard, candidate)
    ensures WindowValid(w.(leaderboard := Leaderboard.Accept(w.leaderboard, Entry(total, Some(candidate)))), reg)
  {
    var board := w.leaderboard;
    var e := Entry(total, Some(candidate));
    Leaderboard.AcceptKeepsBoard(board, total, candidate);
    var k := Leaderboard.AcceptPosition(board, e);
    var r := Leaderboard.Accept(board, e);
    forall i | 0 <= i < |r| && r[i].who.Some?
      ensures r[i].who.value in reg
    {
      if i < k {
        assert r[i] == board[i + 1];
      } else if i > k {
        assert r[i] == board[i];
      }
    }
  }

  /** The invariant does not constrain the ledger. */
  lemma LedgerKeepsInv(s: Stored, balances: map<AccountId, Balance>)
    requires Inv(s)
    ensures Inv(s.(balances := balances))
  {
  }

  /** Opening a window with a non-empty leaderboard keeps the invariant. */
  lemma OpenKeepsInv(s: Stored, pending: Pending, stakes: seq<Balance>, size: nat)
    requires Inv(s) && size >= 1
    ensures Inv(s.(window := Some(Window(pending, stakes, Leaderboard.Initial(size)))))
  {
  }

  /** The store after a tally starts at block `now`: when the members not
      expiring now leave seats empty, a window opens that closes
      `presentationDuration` later, records the number of empty seats and the
      expiring prefix, snapshots every voter's stake, and holds a zero board
      with one entry per empty seat plus the carried runners-up. Otherwise
      nothing changes. */
  ghost function Started(s: Stored, now: BlockNumber): (r: Stored)
    ensures r == s.(window := r.window)
    ensures r != s ==> r.window.Some? && |r.window.value.stakes| == |s.voters|
  {
    var expiring := Members.Expiring(s.activeCouncil, now);
    var staying := |s.activeCouncil| - |expiring|;
    if staying < s.params.desiredSeats then
      var empty := s.params.desiredSeats - staying;
      s.(window := Some(Window(Pending(now + s.params.presentationDuration, empty, expiring),
                               StakeSnapshot(s.voters, s.balances),
                               Leaderboard.Initial(empty + s.params.carryCount))))
    else s
  }

  /** Every stored item is a field of the class, so that each entry point is a
      method that changes the election in place, as the runtime's storage
      writes do. `State` reads all fields as one `Stored` value, which lets a
      contract say in one equation what an entry point leaves alone, and
      `Commit` writes such a value back; it rewrites the items that did not
      change with their old values. */
  class Election {
    var params: Params
    var activeCouncil: seq<Member>
    var voteIndex: VoteIndex
    var approvalsOf: map<AccountId, seq<bool>>
    var registerInfoOf: map<AccountId, Registration>
    var lastActiveOf: map<AccountId, VoteIndex>
    var voters: seq<AccountId>
    var candidates: seq<Option<AccountId>>
    var candidateCount: nat
    var window: Option<Window>
    // the ledger: balances the election debits and credits, and the accounts
    // whose funds are locked (read only here)
    var balances: map<AccountId, Balance>
    var locked: set<AccountId>

    function State(): Stored
      reads this
    {
      Stored(params, activeCouncil, voteIndex, approvalsOf, registerInfoOf, lastActiveOf,
             voters, candidates, candidateCount, window, balances, locked)
    }

    ghost predicate Valid()
      reads this
    {
      Inv(State())
    }

    /** Genesis: the parameters and the ledger are given, everything else is empty. */
    constructor (params: Params, balances: map<AccountId, Balance>, locked: set<AccountId>)
      requires params.votingPeriod > 0
      ensures Valid()
      ensures State() == Stored(params, [], 0, map[], map[], map[], [], [], 0, None, balances, locked)
    {
      this.params := params;
      activeCouncil := [];
      voteIndex := 0;
      approvalsOf := map[];
      registerInfoOf := map[];
      lastActiveOf := map[];
      voters := [];
      candidates := [];
      candidateCount := 0;
      window := None;
      this.balances := balances;
      this.locked := locked;
    }

    /** A presentation window is open exactly when its record is stored. */
    predicate PresentationActive(): (r: bool)
      reads this
      ensures r <==> State().window.Some?
    {
      window.Some?
    }

    /** The block of the next tally, from the stored council, window and parameters. */
    function NextTally(now: BlockNumber): (r: Option<BlockNumber>)
      reads this
      requires params.votingPeriod > 0
      requires window.Some? ==> |window.value.pending.expiring| <= |activeCouncil|
      ensures r.None? <==> params.desiredSeats == 0
      ensures r.Some? ==> r.value % params.votingPeriod == 0
      ensures params.desiredSeats > 0 && window.None? && |activeCouncil| < params.desiredSeats ==>
                r.Some? && now <= r.value < now + params.votingPeriod
    {
      var pending := match window case Some(w) => Some(w.pending) case None => None;
      Schedule.NextTally(params.desiredSeats, activeCouncil, pending, now,
                         params.termDuration, params.votingPeriod)
    }

    /** The stake total `candidate` actually holds in the open window. */
    function ActualTotal(candidate: AccountId): (r: Balance)
      reads this
      requires window.Some? && candidate in registerInfoOf
      ensures r <= Tally.Sum(window.value.stakes)
    {
      var info := registerInfoOf[candidate];
      Tally.ActualTotal(voters, window.value.stakes, lastActiveOf, approvalsOf, info.since, info.slot)
    }

    /** Register `signed` as a candidate in `slot`, which must be the append
        position of a hole-free array or an existing hole. */
    method SubmitCandidacy(signed: AccountId, slot: nat) returns (r: Outcome)
      requires Valid()
      modifies this
      ensures Valid()
      ensures r == old(
        if signed in registerInfoOf then Abort(AlreadyCandidate)
        else if BalanceOf(balances, signed) < params.candidacyBond then Abort(InsufficientBalance)
        else if signed in locked then Abort(FundsLocked)
        else if !((slot == candidateCount && candidateCount == |candidates|)
                  || (slot < |candidates| && candidates[slot].None?)) then Abort(SlotConflict)
        else Done)
      ensures r.Abort? ==> State() == old(State())
      ensures r.Done? ==> State() == old(State()).(
        candidates := Enter(old(candidates), slot, signed),
        candidateCount := old(candidateCount) + 1,
        registerInfoOf := old(registerInfoOf)[signed := Registration(old(voteIndex), slot)],
        balances := old(balances)[signed := old(BalanceOf(balances, signed)) - old(params.candidacyBond)])
    {
      if signed in registerInfoOf {
        return Abort(AlreadyCandidate);
      }
      var b := BalanceOf(balances, signed);
      var bond := params.candidacyBond;
      if b < bond {
        return Abort(InsufficientBalance);
      }
      if signed in locked {
        return Abort(FundsLocked);
      }
      var count := candidateCount;
      if !((slot == count && count == |candidates|) || (slot < |candidates| && candidates[slot].None?)) {
        return Abort(SlotConflict);
      }
      var s := State();
      SubmitKeepsInv(s, signed, slot, s.balances[signed := b - bond]);
      Commit(s.(balances := s.balances[signed := b - bond],
                candidates := Enter(s.candidates, slot, signed),
                candidateCount := count + 1,
                registerInfoOf := s.registerInfoOf[signed := Registration(s.voteIndex, slot)]));
      r := Done;
    }

    /** Replace the approval vector of `signed`; a first-time voter pays the
        voting bond and joins the voter list. */
    method SetApprovals(signed: AccountId, votes: seq<bool>, index: VoteIndex) returns (r: Outcome)
      requires Valid()
      modifies this
      ensures Valid()
      ensures r == old(
        if window.Some? then Abort(WindowActive)
        else if index != voteIndex then Abort(StaleVoteIndex)
        else if signed !in lastActiveOf && BalanceOf(balances, signed) < params.votingBond then Abort(InsufficientBalance)
        else Done)
      ensures r.Abort? ==> State() == old(State())
      ensures r.Done? ==> State() == old(State()).(
        voters := if signed in old(lastActiveOf) then old(voters) else old(voters) + [signed],
        balances := if signed in old(lastActiveOf) then old(balances)
                    else old(balances)[signed := old(BalanceOf(balances, signed)) - old(params.votingBond)],
        approvalsOf := old(approvalsOf)[signed := votes],
        lastActiveOf := old(lastActiveOf)[signed := index])
      ensures r.Done? ==> signed in voters
    {
      if window.Some? {
        return Abort(WindowActive);
      }
      if index != voteIndex {
        return Abort(StaleVoteIndex);
      }
      var newVoters, newBalances := voters, balances;
      if signed !in lastActiveOf {
        var b := BalanceOf(balances, signed);
        if b < params.votingBond {
          return Abort(InsufficientBalance);
        }
        newVoters, newBalances := voters + [signed], balances[signed := b - params.votingBond];
      }
      var s := State();
      ApproveKeepsInv(s, signed, votes, index, newVoters, newBalances);
      Commit(s.(voters := newVoters, balances := newBalances,
                approvalsOf := s.approvalsOf[signed := votes],
                lastActiveOf := s.lastActiveOf[signed := index]));
      r := Done;
    }

    /** Take the voter at position `index` out of the list by swap-remove and
        forget its approvals and last-active record. */
    method RemoveVoter(voter: AccountId, index: nat)
      requires Valid() && window.None?
      requires index < |voters| && voters[index] == voter
      modifies this
      ensures Valid()
      ensures State() == old(State()).(
        voters := SwapRemove(old(voters), index),
        approvalsOf := old(approvalsOf) - {voter},
        lastActiveOf := old(lastActiveOf) - {voter})
      ensures voter !in voters && |voters| == old(|voters|) - 1
      ensures forall v :: v in voters <==> v in old(voters) && v != voter
    {
      var s := State();
      SwapRemoveExact(s.voters, index);
      RemoveKeepsInv(s, voter, index);
      Commit(s.(voters := SwapRemove(s.voters, index),
                approvalsOf := s.approvalsOf - {voter},
                lastActiveOf := s.lastActiveOf - {voter}));
    }

    /** A voter withdraws, naming its current position in the voter list, and
        gets the voting bond back. */
    method RetractVoter(signed: AccountId, index: nat) returns (r: Outcome)
      requires Valid()
      modifies this
      ensures Valid()
      ensures r == old(
        if window.Some? then Abort(WindowActive)
        else if signed !in lastActiveOf then Abort(NotVoter)
        else if !(index < |voters| && voters[index] == signed) then Abort(PositionMismatch)
        else Done)
      ensures r.Abort? ==> State() == old(State())
      ensures r.Done? ==> State() == old(State()).(
        voters := SwapRemove(old(voters), index),
        approvalsOf := old(approvalsOf) - {signed},
        lastActiveOf := old(lastActiveOf) - {signed},
        balances := old(balances)[signed := old(BalanceOf(balances, signed)) + old(params.votingBond)])
      ensures r.Done? ==> signed !in voters
    {
      if window.Some? {
        return Abort(WindowActive);
      }
      if signed !in lastActiveOf {
        return Abort(NotVoter);
      }
      if !(index < |voters| && voters[index] == signed) {
        return Abort(PositionMismatch);
      }
      var refunded := balances[signed := BalanceOf(balances, signed) + params.votingBond];
      RemoveVoter(signed, index);
      var removed := State();
      LedgerKeepsInv(removed, refunded);
      Commit(removed.(balances := refunded));
      r := Done;
    }

    /** Prune `who`, a voter inactive since before `assumedVoteIndex`. If none
        of the occupied slots `who` approves holds a candidate registered by
        `who`'s last activity, `who` is removed and `signed` earns the voting
        bond; otherwise `signed` is removed, without refund. */
    method KillInactiveVoter(signed: AccountId, signedIndex: nat, who: AccountId, whoIndex: nat,
                             assumedVoteIndex: VoteIndex) returns (r: Outcome)
      requires Valid()
      modifies this
      ensures Valid()
      ensures r == old(
        if window.Some? then Abort(WindowActive)
        else if signed !in lastActiveOf || who !in lastActiveOf then Abort(NotVoter)
        else if assumedVoteIndex != voteIndex then Abort(StaleVoteIndex)
        else if lastActiveOf[who] >= assumedVoteIndex then Abort(TargetNotStale)
        else if !(signedIndex < |voters| && voters[signedIndex] == signed)
                || !(whoIndex < |voters| && voters[whoIndex] == who) then Abort(PositionMismatch)
        else Done)
      ensures r.Abort? ==> State() == old(State())
      ensures r.Done? ==>
        var valid := old(!Tally.BacksCurrentCandidate(Tally.ApprovalsOf(approvalsOf, who), candidates,
                                                      registerInfoOf, lastActiveOf[who]));
        var gone := if valid then who else signed;
        State() == old(State()).(
          voters := SwapRemove(old(voters), if valid then whoIndex else signedIndex),
          approvalsOf := old(approvalsOf) - {gone},
          lastActiveOf := old(lastActiveOf) - {gone},
          balances := if valid then old(balances)[signed := old(BalanceOf(balances, signed)) + old(params.votingBond)]
                      else old(balances))
      ensures r.Done? ==> |voters| == old(|voters|) - 1
      ensures r.Done? && signed != who ==> (signed in voters <==> who !in voters)
    {
      if window.Some? {
        return Abort(WindowActive);
      }
      if signed !in lastActiveOf || who !in lastActiveOf {
        return Abort(NotVoter);
      }
      var lastActive := lastActiveOf[who];
      if assumedVoteIndex != voteIndex {
        return Abort(StaleVoteIndex);
      }
      if lastActive >= assumedVoteIndex {
        return Abort(TargetNotStale);
      }
      if !(signedIndex < |voters| && voters[signedIndex] == signed)
         || !(whoIndex < |voters| && voters[whoIndex] == who) {
        return Abort(PositionMismatch);
      }
      var valid := !Tally.BacksCurrentCandidate(Tally.ApprovalsOf(approvalsOf, who), candidates,
                                                registerInfoOf, lastActive);
      var gone, at := if valid then who else signed, if valid then whoIndex else signedIndex;
      var refunded := if valid then balances[signed := BalanceOf(balances, signed) + params.votingBond] else balances;
      RemoveVoter(gone, at);
      var removed := State();
      LedgerKeepsInv(removed, refunded);
      Commit(removed.(balances := refunded));
      r := Done;
    }

    /** Claim that `candidate` holds `total` in the open window. A claim that
        beats the lowest entry and matches the recomputed total, for a
        candidate not yet on the board, takes the lowest entry's place;
        any other admissible claim costs `signed` the slash. */
    method Present(signed: AccountId, candidate: AccountId, total: Balance, index: VoteIndex)
      returns (r: Result<Verdict>)
      requires Valid()
      modifies this
      ensures Valid()
      ensures r == old(
        if index != voteIndex then Fail(StaleVoteIndex)
        else if window.None? then Fail(WindowInactive)
        else if BalanceOf(balances, signed) < params.presentSlashPerVoter * |voters| then Fail(InsufficientBalance)
        else if total <= window.value.leaderboard[0].total then Fail(ClaimTooLow)
        else if candidate !in registerInfoOf then Fail(NotCandidate)
        else if total == ActualTotal(candidate) && !Leaderboard.Holds(window.value.leaderboard, candidate)
        then Ok(Accepted)
        else Ok(Slashed))
      ensures r.Fail? ==> State() == old(State())
      ensures r == Ok(Accepted) ==> State() == old(State()).(
        window := Some(old(window.value).(
          leaderboard := Leaderboard.Accept(old(window.value.leaderboard), Entry(total, Some(candidate))))))
      ensures r == Ok(Slashed) ==> State() == old(State()).(
        balances := old(balances)[signed := old(BalanceOf(balances, signed)) - old(params.presentSlashPerVoter * |voters|)])
      ensures r.Ok? ==> |window.value.leaderboard| == old(|window.value.leaderboard|)
    {
      if index != voteIndex {
        return Fail(StaleVoteIndex);
      }
      if window.None? {
        return Fail(WindowInactive);
      }
      var b := BalanceOf(balances, signed);
      var punishment := params.presentSlashPerVoter * |voters|;
      if b < punishment {
        return Fail(InsufficientBalance);
      }
      var w := window.value;
      var board := w.leaderboard;
      if total <= board[0].total {
        return Fail(ClaimTooLow);
      }
      if candidate !in registerInfoOf {
        return Fail(NotCandidate);
      }
      var actual := ActualTotal(candidate);
      var dupe := Leaderboard.Holds(board, candidate);
      var s := State();
      if total == actual && !dupe {
        // the claim replaces the lowest entry and the board is re-sorted
        Leaderboard.AcceptKeepsBoard(board, total, candidate);
        AcceptKeepsInv(s, total, candidate);
        Commit(s.(window := Some(w.(leaderboard := Leaderboard.Accept(board, Entry(total, Some(candidate)))))));
        r := Ok(Accepted);
      } else {
        var slashed := s.balances[signed := b - punishment];
        LedgerKeepsInv(s, slashed);
        Commit(s.(balances := slashed));
        r := Ok(Slashed);
      }
    }

    /** Close the voting at block `now`: if the members not expiring now leave
        seats empty, open a window that snapshots every voter's stake and sizes
        the leaderboard for the empty seats plus the carried runners-up. */
    method StartTally(now: BlockNumber)
      requires Valid()
      modifies this
      ensures Valid()
      ensures State() == Started(old(State()), now)
    {
      var expiring := Members.Expiring(activeCouncil, now);
      var desired := params.desiredSeats;
      if |activeCouncil| - |expiring| < desired {
        var empty := desired - (|activeCouncil| - |expiring|);
        var pending := Pending(now + params.presentationDuration, empty, expiring);
        var stakes := StakeSnapshot(voters, balances);
        OpenKeepsInv(State(), pending, stakes, empty + params.carryCount);
        window := Some(Window(pending, stakes, Leaderboard.Initial(empty + params.carryCount)));
      }
    }

    /** Close the window at block `now`: the top `coming` non-empty entries are
        elected for a term and get their candidacy bond back, the expiring
        members leave, the other non-empty entries stay candidates in their
        slots, every other registration is dropped, the slot array sheds its
        trailing holes, and the vote index moves on by one. */
    method FinaliseTally(now: BlockNumber)
      requires Valid() && window.Some?
      modifies this
      ensures Valid()
      ensures State() == Finalised(old(State()), now)
    {
      var s := State();
      var w := s.window.value;
      var elected, kept := Elected(w), Kept(w);
      RunnersUpRegistered(s);

      // return the bond to the elected
      var refunded := Ledger.RefundAll(s.balances, elected, s.params.candidacyBond);

      // the new council
      var council := Members.NextCouncil(s.activeCouncil, |w.pending.expiring|, elected, now + s.params.termDuration);

      // clear every candidate but the runners-up
      var slots, count, remaining := ClearCandidates(s.candidates, s.registerInfoOf, kept);

      FinaliseKeepsInv(s, now);
      FinalisedFrom(s, now, refunded, council, KeepOnly(s.candidates, kept), count, remaining);
      Commit(s.(window := None, balances := refunded, activeCouncil := council,
                candidates := slots, candidateCount := count,
                registerInfoOf := remaining, voteIndex := s.voteIndex + 1));
    }

    /** Write every stored item at once. */
    method Commit(t: Stored)
      modifies this
      ensures State() == t
    {
      params, activeCouncil, voteIndex := t.params, t.activeCouncil, t.voteIndex;
      approvalsOf, registerInfoOf, lastActiveOf := t.approvalsOf, t.registerInfoOf, t.lastActiveOf;
      voters, candidates, candidateCount := t.voters, t.candidates, t.candidateCount;
      window, balances, locked := t.window, t.balances, t.locked;
    }

    /** The end-of-block hook: on a voting-period boundary that is the
        scheduled tally block, start a tally; then, if the open window ends at
        this block, finalise it. */
    method EndBlock(now: BlockNumber) returns (ghost tallied: bool, ghost closed: bool)
      requires Valid()
      requires window.Some? ==> |window.value.pending.expiring| <= |activeCouncil|
      modifies this
      ensures Valid()
      ensures tallied <==> old(now % params.votingPeriod == 0 && NextTally(now) == Some(now))
      ensures var t := if tallied then Started(old(State()), now) else old(State());
        && (closed <==> t.window.Some? && t.window.value.pending.end == now)
        && State() == (if closed then Finalised(t, now) else t)
      ensures voteIndex == old(voteIndex) + (if closed then 1 else 0)
      ensures closed ==> window.None?
    {
      ghost var before := State();
      tallied, closed := false, false;
      if now % params.votingPeriod == 0 {
        if NextTally(now) == Some(now) {
          tallied := true;
          StartTally(now);
        }
      }
      assert State() == if tallied then Started(before, now) else before;
      if window.Some? && window.value.pending.end == now {
        closed := true;
        FinaliseTally(now);
      }
    }

    method SetDesiredSeats(count: nat)
      requires Valid()
      modifies this
      ensures Valid()
      ensures State() == old(State()).(params := old(params).(desiredSeats := count))
    {
      params := params.(desiredSeats := count);
    }

    /** Remove every seat held by `who`, effective immediately. */
    method RemoveMember(who: AccountId)
      requires Valid()
      modifies this
      ensures Valid()
      ensures State() == old(State()).(activeCouncil := Members.WithoutMember(old(activeCouncil), who))
      ensures forall m :: m in activeCouncil ==> m.who != who
    {
      activeCouncil := Members.WithoutMember(activeCouncil, who);
    }

    method SetPresentationDuration(count: BlockNumber)
      requires Valid()
      modifies this
      ensures Valid()
      ensures State() == old(State()).(params := old(params).(presentationDuration := count))
    {
      params := params.(presentationDuration := count);
    }

    method SetTermDuration(count: BlockNumber)
      requires Valid()
      modifies this
      ensures Valid()
      ensures State() == old(State()).(params := old(params).(termDuration := count))
    {
      params := params.(termDuration := count);
    }
  }

  /** The two parts of a list without repetition have none and share nothing. */
  lemma DistinctParts(front: seq<AccountId>, back: seq<AccountId>)
    requires Distinct(front + back)
    ensures Distinct(front) && Distinct(back)
    ensures forall a :: a in front ==> a !in back
  {
    var all := front + back;
    forall i, j | 0 <= i < j < |front|
      ensures front[i] != front[j]
    {
      assert all[i] == front[i] && all[j] == front[j];
    }
    forall i, j | 0 <= i < j < |back|
      ensures back[i] != back[j]
    {
      assert all[|front| + i] == back[i] && all[|front| + j] == back[j];
    }
    forall i, j | 0 <= i < |front| && 0 <= j < |back|
      ensures front[i] != back[j]
    {
      assert all[i] == front[i] && all[|front| + j] == back[j];
    }
  }

  /** The accounts the board elects and those it keeps as runners-up are
      registered candidates, neither list repeats an account, and no account
      is in both. */
  lemma RunnersUpRegistered(s: Stored)
    requires Inv(s) && s.window.Some?
    ensures var board, coming := s.window.value.leaderboard, s.window.value.pending.coming;
      var elected := Leaderboard.Candidates(Leaderboard.Winners(board, coming));
      var kept := Leaderboard.Candidates(Leaderboard.RunnersUp(board, coming));
      && Distinct(elected) && Distinct(kept)
      && (forall a :: a in elected ==> a !in kept)
      && (forall a :: a in kept ==> a in s.registerInfoOf)
  {
    var board, coming := s.window.value.leaderboard, s.window.value.pending.coming;
    var elected := Leaderboard.Candidates(Leaderboard.Winners(board, coming));
    var kept := Leaderboard.Candidates(Leaderboard.RunnersUp(board, coming));
    Leaderboard.ElectedAndKept(board, coming);
    DistinctParts(elected, kept);
    forall a | a in kept
      ensures a in s.registerInfoOf
    {
      assert a in elected + kept;
      var i :| 0 <= i < |board| && board[i].who == Some(a);
    }
  }

  /** The accounts an open window's board elects. */
  function Elected(w: Window): seq<AccountId>
  {
    Leaderboard.Candidates(Leaderboard.Winners(w.leaderboard, w.pending.coming))
  }

  /** The accounts an open window's board keeps as runners-up. */
  function Kept(w: Window): seq<AccountId>
  {
    Leaderboard.Candidates(Leaderboard.RunnersUp(w.leaderboard, w.pending.coming))
  }

  /** The store after the open window closes at block `now`: the elected get
      their candidacy bond back and join the council, with a term ending
      `termDuration` after `now`, behind the members that do not leave; only
      the runners-up stay candidates, in their slots, and the slot array loses
      its trailing holes; the window closes and the vote index moves on. */
  ghost function Finalised(s: Stored, now: BlockNumber): (r: Stored)
    requires s.window.Some?
    ensures r.window.None? && r.voteIndex == s.voteIndex + 1
    ensures r.params == s.params && r.locked == s.locked
    ensures r.voters == s.voters && r.approvalsOf == s.approvalsOf && r.lastActiveOf == s.lastActiveOf
  {
    var w := s.window.value;
    s.(window := None,
       balances := Ledger.Credit(s.balances, Elected(w), s.params.candidacyBond),
       activeCouncil := Members.NextCouncil(s.activeCouncil, |w.pending.expiring|, Elected(w), now + s.params.termDuration),
       candidates := Shrink(KeepOnly(s.candidates, Kept(w))),
       candidateCount := |Kept(w)|,
       registerInfoOf := Restrict(s.registerInfoOf, Kept(w)),
       voteIndex := s.voteIndex + 1)
  }

  /** The closed store, assembled from its parts as the finalisation computes them. */
  lemma FinalisedFrom(s: Stored, now: BlockNumber, balances: map<AccountId, Balance>, council: seq<Member>,
                      placed: seq<Option<AccountId>>, count: nat, remaining: map<AccountId, Registration>)
    requires s.window.Some?
    requires balances == Ledger.Credit(s.balances, Elected(s.window.value), s.params.candidacyBond)
    requires council == Members.NextCouncil(s.activeCouncil, |s.window.value.pending.expiring|,
                                            Elected(s.window.value), now + s.params.termDuration)
    requires placed == KeepOnly(s.candidates, Kept(s.window.value))
    requires count == |Kept(s.window.value)|
    requires remaining == Restrict(s.registerInfoOf, Kept(s.window.value))
    ensures Finalised(s, now) == s.(window := None, balances := balances, activeCouncil := council,
                                    candidates := Shrink(placed), candidateCount := count,
                                    registerInfoOf := remaining, voteIndex := s.voteIndex + 1)
  {
  }

  /** Closing the window keeps the invariant. */
  lemma FinaliseKeepsInv(s: Stored, now: BlockNumber)
    requires Inv(s) && s.window.Some?
    ensures Inv(Finalised(s, now))
  {
    var kept := Kept(s.window.value);
    KeptPlaced(s);
    KeptCount(s);
    ShrinkKeepsRegistrations(KeepOnly(s.candidates, kept), Restrict(s.registerInfoOf, kept));
  }

  /** Keeping only the runners-up leaves one occupied slot for each of them. */
  lemma KeptCount(s: Stored)
    requires Inv(s) && s.window.Some?
    ensures Occupied(KeepOnly(s.candidates, Kept(s.window.value))) == |Kept(s.window.value)|
  {
    RunnersUpRegistered(s);
    KeepOnlyOccupied(s.candidates, s.registerInfoOf, Kept(s.window.value));
  }

  /** Before shrinking, the slots that keep only the runners-up and the
      registrations restricted to them still point at each other. */
  lemma KeptPlaced(s: Stored)
    requires Inv(s) && s.window.Some?
    ensures var kept := Kept(s.window.value);
      && SlotsRegistered(KeepOnly(s.candidates, kept), Restrict(s.registerInfoOf, kept))
      && RegistrationsPlaced(KeepOnly(s.candidates, kept), Restrict(s.registerInfoOf, kept))
  {
    var kept := Kept(s.window.value);
    RunnersUpRegistered(s);
    var placed := KeepOnly(s.candidates, kept);
    var remaining := Restrict(s.registerInfoOf, kept);
    forall i | 0 <= i < |placed| && placed[i].Some?
      ensures placed[i].value in remaining && remaining[placed[i].value].slot == i
    {
      assert s.candidates[i] == placed[i];
    }
    forall c | c in remaining
      ensures remaining[c].slot < |placed| && placed[remaining[c].slot] == Some(c)
    {
    }
  }

  /** Once the window closes, exactly the runners-up are registered, and the
      ledger differs only by one candidacy bond returned to each elected
      account. */
  lemma FinalisedRegistrationsAndLedger(s: Stored, now: BlockNumber)
    requires Inv(s) && s.window.Some?
    ensures forall c :: c in Finalised(s, now).registerInfoOf <==> c in Kept(s.window.value)
    ensures forall a :: BalanceOf(Finalised(s, now).balances, a)
                        == BalanceOf(s.balances, a) + (if a in Elected(s.window.value) then s.params.candidacyBond else 0)
  {
    RunnersUpRegistered(s);
    forall a
      ensures BalanceOf(Finalised(s, now).balances, a)
              == BalanceOf(s.balances, a) + (if a in Elected(s.window.value) then s.params.candidacyBond else 0)
    {
      Ledger.CreditExact(s.balances, Elected(s.window.value), s.params.candidacyBond, a);
    }
  }

  /** A member whose expiry is not a voting-period boundary never expires at a
      tally block, so a tally that is started for its seat opens no window. */
  lemma OffBoundaryMembersStay(s: Stored, now: BlockNumber)
    requires s.params.votingPeriod > 0 && now % s.params.votingPeriod == 0
    requires |s.activeCouncil| > 0 && s.activeCouncil[0].expiry % s.params.votingPeriod != 0
    requires |s.activeCouncil| >= s.params.desiredSeats
    ensures Members.Expiring(s.activeCouncil, now) == []
    ensures Started(s, now) == s
  {
    assert s.activeCouncil[0].expiry != now;
  }

  /** The council of the single-round test, eve (5) and bob (2) both expiring
      at block 11, with two seats, a term of 5 and a period of 4: the next
      tally is block 12 whatever the current block, and at block 12 nobody
      expires, so no tally ever opens a window again. */
  lemma StalledScheduleExample(now: BlockNumber)
    ensures var council := [Member(5, 11), Member(2, 11)];
      && Schedule.NextTally(2, council, None, now, 5, 4) == Some(12)
      && Members.Expiring(council, 12) == []
  {
    assert Schedule.NextVoteFrom(11, 4) == 12;
  }

  /** When the wanted seats rise while a window is open, a window ending on a
      period boundary is replaced at its end by a new one with a zero board
      before it can close: the end-of-block hook starts a tally at that block
      and then finds no window ending there. */
  lemma RetallyOverwritesWindow(s: Stored, now: BlockNumber)
    requires s.params.votingPeriod > 0 && now % s.params.votingPeriod == 0
    requires s.params.presentationDuration > 0
    requires s.activeCouncil == [] && s.window.Some?
    requires s.window.value.pending.end == now && s.window.value.pending.expiring == []
    requires s.window.value.pending.coming < s.params.desiredSeats
    ensures Schedule.NextTally(s.params.desiredSeats, s.activeCouncil, Some(s.window.value.pending), now,
                               s.params.termDuration, s.params.votingPeriod) == Some(now)
    ensures var t := Started(s, now);
      && t.window.Some? && t.window.value.pending.end == now + s.params.presentationDuration
      && t.window.value.leaderboard == Leaderboard.Initial(s.params.desiredSeats + s.params.carryCount)
  {
    Schedule.NextVoteFromIsLeast(now, s.params.votingPeriod, now);
  }
}
