/**
 * The active council as a list of members ordered by expiry: the prefix that
 * expires on a block, seating newly elected members, and removing a member.
 */
module Members {
  import opened CouncilTypes

  /** The members at the front of the council whose term expires at `now`
      (the `take_while` on the expiry). */
  function Expiring(council: seq<Member>, now: BlockNumber): (r: seq<Member>)
    ensures |r| <= |council| && r == council[..|r|]
    ensures forall i :: 0 <= i < |r| ==> r[i].expiry == now
    ensures |r| < |council| ==> council[|r|].expiry != now
  {
    if |council| == 0 || council[0].expiry != now then []
    else [council[0]] + Expiring(council[1..], now)
  }

  /** The newly elected accounts, each with the given expiry. */
  function Seat(elected: seq<AccountId>, expiry: BlockNumber): (r: seq<Member>)
    ensures |r| == |elected|
    ensures forall i :: 0 <= i < |r| ==> r[i] == Member(elected[i], expiry)
  {
    seq(|elected|, i requires 0 <= i < |elected| => Member(elected[i], expiry))
  }

  /** The council with every seat of `who` removed, the others in their order. */
  function WithoutMember(council: seq<Member>, who: AccountId): (r: seq<Member>)
    ensures forall m :: m in r <==> m in council && m.who != who
    ensures forall m: Member :: m.who != who ==> multiset(r)[m] == multiset(council)[m]
    ensures |r| <= |council|
  {
    if |council| == 0 then []
    else
      var rest := WithoutMember(council[1..], who);
      assert council == [council[0]] + council[1..];
      if council[0].who == who then rest else [council[0]] + rest
  }

  /** Removal works member by member: removing from two parts of a council
      and joining the results is removing from the whole, so the members that
      stay keep their relative order. */
  lemma {:induction false} WithoutMemberAppend(front: seq<Member>, back: seq<Member>, who: AccountId)
    ensures WithoutMember(front + back, who) == WithoutMember(front, who) + WithoutMember(back, who)
  {
    if |front| > 0 {
      var all := front + back;
      assert all[0] == front[0] && all[1..] == front[1..] + back;
      WithoutMemberAppend(front[1..], back, who);
      var tail, rest := WithoutMember(front[1..], who), WithoutMember(back, who);
      if front[0].who != who {
        assert WithoutMember(all, who) == [front[0]] + (tail + rest);
        assert WithoutMember(front, who) == [front[0]] + tail;
      } else {
        assert WithoutMember(all, who) == tail + rest && WithoutMember(front, who) == tail;
      }
    } else {
      assert front + back == back;
    }
  }

  /** A council where `who` holds no seat is left exactly as it was. */
  lemma {:induction false} WithoutAbsentMember(council: seq<Member>, who: AccountId)
    requires forall i :: 0 <= i < |council| ==> council[i].who != who
    ensures WithoutMember(council, who) == council
  {
    if |council| > 0 {
      WithoutAbsentMember(council[1..], who);
      assert council == [council[0]] + council[1..];
    }
  }

  /** The members are listed in order of expiry. */
  ghost predicate ByExpiry(council: seq<Member>)
  {
    forall i, j :: 0 <= i < j < |council| ==> council[i].expiry <= council[j].expiry
  }

  /** Removing a member keeps a council ordered by expiry. */
  lemma {:induction false} WithoutMemberKeepsOrder(council: seq<Member>, who: AccountId)
    requires ByExpiry(council)
    ensures ByExpiry(WithoutMember(council, who))
  {
    if |council| > 0 {
      var rest := council[1..];
      TailByExpiry(council);
      WithoutMemberKeepsOrder(rest, who);
      if council[0].who != who {
        PrependByExpiry(council[0], WithoutMember(rest, who));
      }
    }
  }

  /** The tail of an ordered council is ordered and expires no earlier than its head. */
  lemma TailByExpiry(council: seq<Member>)
    requires ByExpiry(council) && |council| > 0
    ensures ByExpiry(council[1..])
    ensures forall m :: m in council[1..] ==> council[0].expiry <= m.expiry
  {
    var rest := council[1..];
    forall i, j | 0 <= i < j < |rest|
      ensures rest[i].expiry <= rest[j].expiry
    {
      assert rest[i] == council[i + 1] && rest[j] == council[j + 1];
    }
    forall m | m in rest
      ensures council[0].expiry <= m.expiry
    {
      var k :| 0 <= k < |rest| && rest[k] == m;
      assert rest[k] == council[k + 1];
    }
  }

  /** A member expiring no later than every member of an ordered council can go in front. */
  lemma PrependByExpiry(m: Member, council: seq<Member>)
    requires ByExpiry(council) && forall n :: n in council ==> m.expiry <= n.expiry
    ensures ByExpiry([m] + council)
  {
    var r := [m] + council;
    forall i, j | 0 <= i < j < |r|
      ensures r[i].expiry <= r[j].expiry
    {
      assert r[j] == council[j - 1];
      if i > 0 {
        assert r[i] == council[i - 1];
      }
    }
  }

  /** The council after a tally: the first `leaving` members (the expiring
      prefix; fewer if the council is shorter) drop out and the elected join
      at the end, all with the same expiry. */
  function NextCouncil(council: seq<Member>, leaving: nat, elected: seq<AccountId>, expiry: BlockNumber): (r: seq<Member>)
    ensures |r| == |council| - (if leaving <= |council| then leaving else |council|) + |elected|
  {
    var stay := if leaving <= |council| then leaving else |council|;
    council[stay..] + Seat(elected, expiry)
  }

  /** The members that stay keep their order at the front, and the elected
      follow in the order given, each with the new expiry. */
  lemma NextCouncilShape(council: seq<Member>, leaving: nat, elected: seq<AccountId>, expiry: BlockNumber)
    requires leaving <= |council|
    ensures |NextCouncil(council, leaving, elected, expiry)| == |council| - leaving + |elected|
    ensures forall i :: 0 <= i < |council| - leaving ==> NextCouncil(council, leaving, elected, expiry)[i] == council[leaving + i]
    ensures forall i :: 0 <= i < |elected| ==>
              NextCouncil(council, leaving, elected, expiry)[|council| - leaving + i] == Member(elected[i], expiry)
  {
  }
}
