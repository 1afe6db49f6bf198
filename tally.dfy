/**
 * The two folds over voter data: the stake total a candidate actually holds
 * (recomputed when a total is presented) and the check that decides whether
 * pruning an inactive voter is justified.
 */
module Tally {
  import opened CouncilTypes

  /** A voter's approval vector; a voter without one has approved nothing. */
  function ApprovalsOf(approvals: map<AccountId, seq<bool>>, voter: AccountId): seq<bool>
  {
    if voter in approvals then approvals[voter] else []
  }

  /** `voter` counts toward the candidate registered at vote index `since` in
      `slot`: it was active no earlier than that registration and approves the
      slot. */
  predicate Backs(lastActive: map<AccountId, VoteIndex>, approvals: map<AccountId, seq<bool>>,
                  voter: AccountId, since: VoteIndex, slot: nat)
  {
    && voter in lastActive && lastActive[voter] >= since
    && slot < |ApprovalsOf(approvals, voter)| && ApprovalsOf(approvals, voter)[slot]
  }

  /** The sum of the snapshot stakes of the backing voters, pairing voters and
      stakes position by position and stopping at the shorter list. */
  function ActualTotal(voters: seq<AccountId>, stakes: seq<Balance>,
                       lastActive: map<AccountId, VoteIndex>, approvals: map<AccountId, seq<bool>>,
                       since: VoteIndex, slot: nat): (r: Balance)
    ensures r <= Sum(stakes)
  {
    if |voters| == 0 || |stakes| == 0 then 0
    else
      (if Backs(lastActive, approvals, voters[0], since, slot) then stakes[0] else 0)
      + ActualTotal(voters[1..], stakes[1..], lastActive, approvals, since, slot)
  }

  /** The plain sum of a list of stakes. */
  function Sum(stakes: seq<Balance>): Balance
  {
    if |stakes| == 0 then 0 else stakes[0] + Sum(stakes[1..])
  }

  /** The total is zero exactly when every backing voter's stake is zero; so a
      candidate nobody backs with stake can never be presented, since a
      presentation must claim more than the lowest entry, which is at least 0. */
  lemma {:induction false} ActualTotalZeroIff(voters: seq<AccountId>, stakes: seq<Balance>,
                                              lastActive: map<AccountId, VoteIndex>,
                                              approvals: map<AccountId, seq<bool>>,
                                              since: VoteIndex, slot: nat)
    ensures ActualTotal(voters, stakes, lastActive, approvals, since, slot) == 0 <==>
            forall i :: 0 <= i < |voters| && i < |stakes| && Backs(lastActive, approvals, voters[i], since, slot)
                        ==> stakes[i] == 0
  {
    if |voters| > 0 && |stakes| > 0 {
      ActualTotalZeroIff(voters[1..], stakes[1..], lastActive, approvals, since, slot);
      forall i | 1 <= i < |voters| && i < |stakes|
        ensures voters[i] == voters[1..][i - 1] && stakes[i] == stakes[1..][i - 1]
      {
      }
    }
  }

  /** Only backing voters matter: changing the snapshot stake of a voter who
      does not back the candidate leaves the total as it was. */
  lemma {:induction false} ActualTotalIgnoresNonBackers(voters: seq<AccountId>, stakes: seq<Balance>,
                                                        lastActive: map<AccountId, VoteIndex>,
                                                        approvals: map<AccountId, seq<bool>>,
                                                        since: VoteIndex, slot: nat, k: nat, stake: Balance)
    requires k < |voters| && k < |stakes|
    requires !Backs(lastActive, approvals, voters[k], since, slot)
    ensures ActualTotal(voters, stakes[k := stake], lastActive, approvals, since, slot)
         == ActualTotal(voters, stakes, lastActive, approvals, since, slot)
  {
    if k > 0 {
      assert stakes[k := stake][1..] == stakes[1..][k - 1 := stake];
      ActualTotalIgnoresNonBackers(voters[1..], stakes[1..], lastActive, approvals, since, slot, k - 1, stake);
    } else {
      assert stakes[k := stake][1..] == stakes[1..];
    }
  }

  /** The totals of the single-round test: a voter with a stake of 8 approving
      only slot 0 and one with 38 approving only slot 1, both active at index 0. */
  lemma SimpleTallyTotals()
    ensures ActualTotal([2, 5], [8, 38], map[2 := 0, 5 := 0], map[2 := [true, false], 5 := [false, true]], 0, 0) == 8
    ensures ActualTotal([2, 5], [8, 38], map[2 := 0, 5 := 0], map[2 := [true, false], 5 := [false, true]], 0, 1) == 38
  {
  }

  /** Pruning check: does the target still approve an occupied slot whose
      candidate registered no later than the target's last activity? The
      approval vector and the slot array are paired position by position,
      stopping at the shorter. */
  function BacksCurrentCandidate(approvals: seq<bool>, slots: seq<Option<AccountId>>,
                                 reg: map<AccountId, Registration>, lastActive: VoteIndex): (r: bool)
    requires forall i :: 0 <= i < |slots| && slots[i].Some? ==> slots[i].value in reg
    ensures r <==> exists i :: 0 <= i < |approvals| && i < |slots| && approvals[i] && slots[i].Some?
                              && reg[slots[i].value].since <= lastActive
  {
    if |approvals| == 0 || |slots| == 0 then false
    else
      var here := approvals[0] && slots[0].Some? && reg[slots[0].value].since <= lastActive;
      var rest := BacksCurrentCandidate(approvals[1..], slots[1..], reg, lastActive);
      assert rest ==> exists i :: 0 <= i < |approvals| && i < |slots| && approvals[i] && slots[i].Some?
                                  && reg[slots[i].value].since <= lastActive by {
        if rest {
          var j :| 0 <= j < |approvals| - 1 && j < |slots| - 1 && approvals[1..][j] && slots[1..][j].Some?
                   && reg[slots[1..][j].value].since <= lastActive;
          assert approvals[j + 1] && slots[j + 1] == slots[1..][j];
        }
      }
      here || rest
  }
}
