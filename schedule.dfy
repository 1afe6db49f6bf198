/**
 * The tally scheduler: pure block arithmetic deciding on which block the
 * next election tally starts.
 */
module Schedule {
  import opened CouncilTypes

  /** The first block no less than `n` on which a vote can happen: `n` rounded
      up to a multiple of the voting period. */
  function NextVoteFrom(n: BlockNumber, votingPeriod: BlockNumber): (r: BlockNumber)
    requires votingPeriod > 0
    ensures r % votingPeriod == 0
    ensures n <= r < n + votingPeriod
  {
    var q := (n + votingPeriod - 1) / votingPeriod;
    MultipleIsDivisible(q, votingPeriod);
    q * votingPeriod
  }

  /** A positive multiple of a positive period is at least the period. */
  lemma {:induction false} MulAtLeast(k: nat, p: nat)
    requires p > 0 && k >= 1
    ensures k * p >= p
  {
    if k > 1 {
      MulAtLeast(k - 1, p);
      assert k * p == (k - 1) * p + p;
    }
  }

  /** The only multiple of `p` strictly between `-p` and `p` is zero. */
  lemma SmallMultipleIsZero(k: int, p: int)
    requires p > 0 && -p < k * p < p
    ensures k == 0
  {
    if k >= 1 {
      MulAtLeast(k, p);
    } else if k <= -1 {
      assert (-k) * p == -(k * p);
      MulAtLeast(-k, p);
    }
  }

  lemma MultipleIsDivisible(q: nat, p: nat)
    requires p > 0
    ensures (q * p) % p == 0
  {
    var x := q * p;
    var d, m := x / p, x % p;
    assert x == d * p + m && 0 <= m < p;
    assert (q - d) * p == q * p - d * p;
    SmallMultipleIsZero(q - d, p);
  }

  /** No multiple of the period lies between `n` and `NextVoteFrom(n)`: the
      rounding goes to the LEAST boundary at or after `n`. */
  lemma {:induction false} NextVoteFromIsLeast(n: BlockNumber, votingPeriod: BlockNumber, b: BlockNumber)
    requires votingPeriod > 0
    requires b % votingPeriod == 0 && n <= b
    ensures NextVoteFrom(n, votingPeriod) <= b
  {
    var r := NextVoteFrom(n, votingPeriod);
    if b < r {
      var qb, qr := b / votingPeriod, r / votingPeriod;
      assert b == qb * votingPeriod;
      assert r == qr * votingPeriod;
      assert (qr - qb) * votingPeriod == qr * votingPeriod - qb * votingPeriod;
      SmallMultipleIsZero(qr - qb, votingPeriod);
    }
  }

  /** The number of council seats that will be held once the pending window (if
      any) closes: the expiring prefix leaves, the incoming winners join. */
  function SeatsAfter(council: seq<Member>, pending: Option<Pending>): nat
    requires pending.Some? ==> |pending.value.expiring| <= |council|
  {
    match pending
    case Some(p) => |council| - |p.expiring| + p.coming
    case None => |council|
  }

  /** The earliest block a tally can start: the pending window's end while a
      window is open, `now` otherwise. */
  function NextPossible(pending: Option<Pending>, now: BlockNumber): BlockNumber
  {
    match pending
    case Some(p) => p.end
    case None => now
  }

  /** The number of seats the pending window (if any) is filling. */
  function Coming(pending: Option<Pending>): nat
  {
    match pending
    case Some(p) => p.coming
    case None => 0
  }

  /** The block on which the next tally starts; `None` only when no seat is
      wanted. While a window is pending the earliest start is that window's
      end, otherwise it is `now`; with seats to fill the tally starts on the
      first voting-period boundary from there. When the seats are already
      filled the tally waits: a full term past the earliest start when the
      incoming members alone fill every wanted seat, and otherwise until the
      member whose expiry brings the council below the wanted size leaves. */
  function NextTally(desiredSeats: nat, council: seq<Member>, pending: Option<Pending>,
                     now: BlockNumber, termDuration: BlockNumber, votingPeriod: BlockNumber): (r: Option<BlockNumber>)
    requires votingPeriod > 0
    requires pending.Some? ==> |pending.value.expiring| <= |council|
    ensures r.None? <==> desiredSeats == 0
    ensures r.Some? ==> r.value % votingPeriod == 0
    ensures desiredSeats > 0 && SeatsAfter(council, pending) < desiredSeats ==>
              r.Some? && NextPossible(pending, now) <= r.value < NextPossible(pending, now) + votingPeriod
    ensures desiredSeats > 0 && SeatsAfter(council, pending) >= desiredSeats && desiredSeats <= Coming(pending) ==>
              r.Some? && NextPossible(pending, now) + termDuration <= r.value
                      < NextPossible(pending, now) + termDuration + votingPeriod
    ensures desiredSeats > 0 && SeatsAfter(council, pending) >= desiredSeats && desiredSeats > Coming(pending) ==>
              && 0 < desiredSeats - Coming(pending) <= |council|
              && var expiry := council[|council| - (desiredSeats - Coming(pending))].expiry;
                 r.Some? && expiry <= r.value < expiry + votingPeriod
  {
    if desiredSeats == 0 then None
    else
      var nextPossible := NextPossible(pending, now);
      var coming := Coming(pending);
      var count := SeatsAfter(council, pending);
      var at :=
        if count < desiredSeats then nextPossible
        else if desiredSeats <= coming then nextPossible + termDuration
        else council[|council| - (desiredSeats - coming)].expiry;
      Some(NextVoteFrom(at, votingPeriod))
  }

  /** With two seats wanted, an empty council and no window, the first tally
      falls on block 4 when asked at block 1. */
  lemma FirstTallyExample()
    ensures NextTally(2, [], None, 1, 5, 4) == Some(4)
  {
  }
}
