/**
 * The presentation leaderboard: a fixed-length list of verified totals kept
 * in ascending order, and how winners and runners-up are read off its top.
 */
module Leaderboard {
  import opened CouncilTypes
  import opened Slots

  ghost predicate Sorted(board: seq<Entry>)
  {
    forall i, j :: 0 <= i < j < |board| ==> board[i].total <= board[j].total
  }

  /** An entry is empty exactly when its total is zero. */
  ghost predicate WellFormed(board: seq<Entry>)
  {
    forall i :: 0 <= i < |board| ==> (board[i].total == 0 <==> board[i].who.None?)
  }

  /** No candidate holds two entries. */
  ghost predicate DistinctCandidates(board: seq<Entry>)
  {
    forall i, j :: 0 <= i < |board| && 0 <= j < |board| && i != j && board[i].who.Some? ==>
      board[i].who != board[j].who
  }

  ghost predicate Valid(board: seq<Entry>)
  {
    Sorted(board) && WellFormed(board) && DistinctCandidates(board)
  }

  /** The board a window opens with: `size` empty entries. */
  function Initial(size: nat): (board: seq<Entry>)
    ensures |board| == size && Valid(board)
    ensures forall i :: 0 <= i < size ==> board[i].total == 0
  {
    seq(size, _ => Entry(0, None))
  }

  /** Does `who` already hold an entry (the duplicate check)? */
  function Holds(board: seq<Entry>, who: AccountId): (r: bool)
    ensures r <==> exists i :: 0 <= i < |board| && board[i].who == Some(who)
  {
    if |board| == 0 then false
    else if board[0].who == Some(who) then true
    else
      var rest := Holds(board[1..], who);
      assert rest ==> exists i :: 0 <= i < |board| && board[i].who == Some(who) by {
        if rest {
          var j :| 0 <= j < |board| - 1 && board[1..][j].who == Some(who);
          assert board[j + 1] == board[1..][j];
        }
      }
      rest
  }

  /** The length of the leading run of entries whose total is below `total`. */
  function Below(entries: seq<Entry>, total: Balance): (k: nat)
    ensures k <= |entries|
    ensures forall i :: 0 <= i < k ==> entries[i].total < total
    ensures k < |entries| ==> entries[k].total >= total
  {
    if |entries| == 0 || entries[0].total >= total then 0
    else 1 + Below(entries[1..], total)
  }

  /** An accepted presentation: the lowest entry is overwritten with `e` and the
      board is stably re-sorted by total. As the rest of the board is sorted,
      the stable sort puts `e` after the entries with a smaller total and
      before all the others. */
  function Accept(board: seq<Entry>, e: Entry): (r: seq<Entry>)
    requires |board| >= 1
    ensures |r| == |board|
  {
    var rest := board[1..];
    var k := Below(rest, e.total);
    rest[..k] + [e] + rest[k..]
  }

  /** Where the accepted entry lands: the board after acceptance is the old
      board without its lowest entry, with the new entry at position k. */
  lemma AcceptPosition(board: seq<Entry>, e: Entry) returns (k: nat)
    requires |board| >= 1
    ensures k < |board| && |Accept(board, e)| == |board|
    ensures Accept(board, e)[k] == e
    ensures forall i :: 0 <= i < k ==> Accept(board, e)[i] == board[i + 1] && board[i + 1].total < e.total
    ensures forall i :: k < i < |board| ==> Accept(board, e)[i] == board[i]
    ensures k + 1 < |board| ==> board[k + 1].total >= e.total
    ensures multiset(Accept(board, e)) == multiset(board) - multiset{board[0]} + multiset{e}
  {
    var rest := board[1..];
    k := Below(rest, e.total);
    var r := Accept(board, e);
    forall i | 0 <= i < k
      ensures r[i] == board[i + 1]
    {
      assert r[i] == rest[..k][i];
    }
    forall i | k < i < |board|
      ensures r[i] == board[i]
    {
      assert r[i] == rest[k..][i - k - 1];
    }
    SplitMultiset(board, k, e);
  }

  lemma SplitMultiset(board: seq<Entry>, k: nat, e: Entry)
    requires 1 <= |board| && k < |board|
    ensures multiset(board[1..][..k] + [e] + board[1..][k..]) == multiset(board) - multiset{board[0]} + multiset{e}
  {
    var rest := board[1..];
    assert board == [board[0]] + (rest[..k] + rest[k..]);
    assert multiset(board) == multiset{board[0]} + multiset(rest[..k]) + multiset(rest[k..]);
  }

  /** Accepting a claim that beats the lowest entry, for a candidate without an
      entry, keeps the board valid and its length, and gives the candidate an
      entry. */
  lemma AcceptKeepsBoard(board: seq<Entry>, total: Balance, who: AccountId)
    requires |board| >= 1 && Valid(board)
    requires total > board[0].total && !Holds(board, who)
    ensures |Accept(board, Entry(total, Some(who)))| == |board|
    ensures Valid(Accept(board, Entry(total, Some(who))))
    ensures Holds(Accept(board, Entry(total, Some(who))), who)
  {
    var e := Entry(total, Some(who));
    var k := AcceptPosition(board, e);
    AcceptSorted(board, e, k);
    AcceptDistinct(board, e, k);
    var r := Accept(board, e);
    forall i | 0 <= i < |r|
      ensures r[i].total == 0 <==> r[i].who.None?
    {
      if i < k { assert r[i] == board[i + 1]; }
      else if i > k { assert r[i] == board[i]; }
    }
    assert r[k].who == Some(who);
  }

  lemma AcceptSorted(board: seq<Entry>, e: Entry, k: nat)
    requires |board| >= 1 && Sorted(board) && e.total > board[0].total
    requires k < |board| && |Accept(board, e)| == |board| && Accept(board, e)[k] == e
    requires forall i :: 0 <= i < k ==> Accept(board, e)[i] == board[i + 1] && board[i + 1].total < e.total
    requires forall i :: k < i < |board| ==> Accept(board, e)[i] == board[i]
    requires k + 1 < |board| ==> board[k + 1].total >= e.total
    ensures Sorted(Accept(board, e))
  {
    var r := Accept(board, e);
    forall i, j | 0 <= i < j < |r|
      ensures r[i].total <= r[j].total
    {
      if j < k {
        assert r[i] == board[i + 1] && r[j] == board[j + 1];
      } else if j == k {
        assert r[i] == board[i + 1];
      } else if i < k {
        assert r[i] == board[i + 1] && r[j] == board[j];
      } else if i == k {
        assert r[j] == board[j] && board[k + 1].total <= board[j].total;
      } else {
        assert r[i] == board[i] && r[j] == board[j];
      }
    }
  }

  lemma AcceptDistinct(board: seq<Entry>, e: Entry, k: nat)
    requires |board| >= 1 && DistinctCandidates(board)
    requires e.who.Some? && !Holds(board, e.who.value)
    requires k < |board| && |Accept(board, e)| == |board| && Accept(board, e)[k] == e
    requires forall i :: 0 <= i < k ==> Accept(board, e)[i] == board[i + 1]
    requires forall i :: k < i < |board| ==> Accept(board, e)[i] == board[i]
    ensures DistinctCandidates(Accept(board, e))
  {
    var r := Accept(board, e);
    forall i, j | 0 <= i < |r| && 0 <= j < |r| && i != j && r[i].who.Some?
      ensures r[i].who != r[j].who
    {
      var i', j' := if i < k then i + 1 else i, if j < k then j + 1 else j;
      if i != k && j != k {
        assert r[i] == board[i'] && r[j] == board[j'] && i' != j';
      } else if i == k {
        assert r[j] == board[j'];
      } else {
        assert r[i] == board[i'];
      }
    }
  }

  /** The non-empty entries read from the top of the board down, stopping at
      the first empty one. */
  function TopDown(board: seq<Entry>): (r: seq<Entry>)
    ensures |r| <= |board|
    ensures |r| < |board| ==> board[|board| - 1 - |r|].total == 0
  {
    if |board| == 0 || board[|board| - 1].total == 0 then []
    else
      var init := board[..|board| - 1];
      var below := TopDown(init);
      assert |below| < |init| ==> init[|init| - 1 - |below|] == board[|board| - 2 - |below|];
      [board[|board| - 1]] + below
  }

  /** On a sorted board, TopDown lists every non-empty entry exactly once, from
      the highest total to the lowest: position k is the k-th from the top, and
      everything below them is empty. */
  lemma {:induction false} TopDownIsNonEmptySuffix(board: seq<Entry>)
    requires Sorted(board)
    ensures forall k :: 0 <= k < |TopDown(board)| ==>
              TopDown(board)[k] == board[|board| - 1 - k] && TopDown(board)[k].total > 0
    ensures forall i :: 0 <= i < |board| - |TopDown(board)| ==> board[i].total == 0
  {
    if |board| > 0 && board[|board| - 1].total != 0 {
      var init := board[..|board| - 1];
      TopDownIsNonEmptySuffix(init);
      forall k | 1 <= k < |TopDown(board)|
        ensures TopDown(board)[k] == init[|init| - 1 - (k - 1)]
      {
      }
    }
  }

  function Min(a: nat, b: nat): nat { if a <= b then a else b }

  /** The top `coming` non-empty entries: the candidates elected. */
  function Winners(board: seq<Entry>, coming: nat): (r: seq<Entry>)
    ensures |r| <= coming
  {
    var top := TopDown(board);
    top[..Min(coming, |top|)]
  }

  /** The non-empty entries below the winners: the runners-up, who keep their
      candidacy. */
  function RunnersUp(board: seq<Entry>, coming: nat): (r: seq<Entry>)
    ensures Winners(board, coming) + r == TopDown(board)
    ensures |r| > 0 ==> |Winners(board, coming)| == coming
  {
    var top := TopDown(board);
    top[Min(coming, |top|)..]
  }

  /** On a sorted board, no runner-up has a higher total than a winner, there
      are at most `coming` winners and fewer only when no runner-up is left,
      and every entry that is neither is empty. */
  lemma WinnersOutrankRunnersUp(board: seq<Entry>, coming: nat)
    requires Sorted(board)
    ensures |Winners(board, coming)| <= coming
    ensures |Winners(board, coming)| < coming ==> RunnersUp(board, coming) == []
    ensures forall i, j :: 0 <= i < |Winners(board, coming)| && 0 <= j < |RunnersUp(board, coming)| ==>
              Winners(board, coming)[i].total >= RunnersUp(board, coming)[j].total
    ensures |Winners(board, coming)| + |RunnersUp(board, coming)| == |TopDown(board)|
    ensures forall i :: 0 <= i < |board| - |TopDown(board)| ==> board[i].total == 0
  {
    TopDownIsNonEmptySuffix(board);
    var top, m := TopDown(board), Min(coming, |TopDown(board)|);
    forall i, j | 0 <= i < m && 0 <= j < |top| - m
      ensures top[..m][i].total >= top[m..][j].total
    {
      assert top[..m][i] == board[|board| - 1 - i];
      assert top[m..][j] == board[|board| - 1 - (m + j)];
    }
  }

  /** The accounts holding the given entries, in order; empty entries are skipped. */
  function Candidates(entries: seq<Entry>): (r: seq<AccountId>)
    ensures |r| <= |entries|
    ensures forall a :: a in r <==> exists i :: 0 <= i < |entries| && entries[i].who == Some(a)
  {
    if |entries| == 0 then []
    else
      var rest := Candidates(entries[1..]);
      assert forall a :: a in rest <==> exists i :: 1 <= i < |entries| && entries[i].who == Some(a) by {
        forall a | a in rest
          ensures exists i :: 1 <= i < |entries| && entries[i].who == Some(a)
        {
          var j :| 0 <= j < |entries| - 1 && entries[1..][j].who == Some(a);
          assert entries[j + 1] == entries[1..][j];
        }
        forall a, i | 1 <= i < |entries| && entries[i].who == Some(a)
          ensures a in rest
        {
          assert entries[1..][i - 1] == entries[i];
        }
      }
      match entries[0].who
      case Some(a) => [a] + rest
      case None => rest
  }

  /** When every entry is occupied, `Candidates` lists them position by position. */
  lemma {:induction false} CandidatesOfOccupied(entries: seq<Entry>)
    requires forall i :: 0 <= i < |entries| ==> entries[i].who.Some?
    ensures |Candidates(entries)| == |entries|
    ensures forall i :: 0 <= i < |entries| ==> Candidates(entries)[i] == entries[i].who.value
  {
    if |entries| > 0 {
      CandidatesOfOccupied(entries[1..]);
      assert forall i :: 1 <= i < |entries| ==> entries[1..][i - 1] == entries[i];
    }
  }

  /** The elected followed by the kept candidates are the accounts of the
      non-empty entries, read from the top of the board down. */
  lemma TopCandidates(board: seq<Entry>, coming: nat)
    requires Sorted(board) && WellFormed(board)
    ensures |Candidates(Winners(board, coming))| == |Winners(board, coming)|
    ensures var both := Candidates(Winners(board, coming)) + Candidates(RunnersUp(board, coming));
      && |both| <= |board|
      && forall i :: 0 <= i < |both| ==> board[|board| - 1 - i].who == Some(both[i])
  {
    TopDownIsNonEmptySuffix(board);
    var top := TopDown(board);
    var m := Min(coming, |top|);
    CandidatesOfOccupied(top[..m]);
    CandidatesOfOccupied(top[m..]);
    var both := Candidates(top[..m]) + Candidates(top[m..]);
    forall i | 0 <= i < |both|
      ensures board[|board| - 1 - i].who == Some(both[i])
    {
      if i < m {
        assert top[..m][i] == top[i];
      } else {
        assert top[m..][i - m] == top[i];
      }
    }
  }

  /** On a valid board the elected and the kept candidates are listed without
      repetition, apart from each other, and all hold an entry. */
  lemma ElectedAndKept(board: seq<Entry>, coming: nat)
    requires Valid(board)
    ensures |Candidates(Winners(board, coming))| == |Winners(board, coming)|
    ensures Distinct(Candidates(Winners(board, coming)) + Candidates(RunnersUp(board, coming)))
    ensures forall a :: a in Candidates(Winners(board, coming)) + Candidates(RunnersUp(board, coming)) ==> Holds(board, a)
  {
    TopCandidates(board, coming);
    var both := Candidates(Winners(board, coming)) + Candidates(RunnersUp(board, coming));
    ListedDistinct(board, both);
    ListedHeld(board, both);
  }

  /** Accounts read off distinct entries of a board without repeated
      candidates are distinct. */
  lemma ListedDistinct(board: seq<Entry>, both: seq<AccountId>)
    requires DistinctCandidates(board) && |both| <= |board|
    requires forall i :: 0 <= i < |both| ==> board[|board| - 1 - i].who == Some(both[i])
    ensures Distinct(both)
  {
    var n := |board|;
    forall i, j | 0 <= i < j < |both|
      ensures both[i] != both[j]
    {
      assert board[n - 1 - i].who == Some(both[i]) && board[n - 1 - j].who == Some(both[j]);
    }
  }

  /** Accounts read off a board's entries hold an entry. */
  lemma ListedHeld(board: seq<Entry>, both: seq<AccountId>)
    requires |both| <= |board|
    requires forall i :: 0 <= i < |both| ==> board[|board| - 1 - i].who == Some(both[i])
    ensures forall a :: a in both ==> Holds(board, a)
  {
    var n := |board|;
    forall a | a in both
      ensures Holds(board, a)
    {
      var i :| 0 <= i < |both| && both[i] == a;
      assert board[n - 1 - i].who == Some(a);
    }
  }

  /** The two presentations of the single-round test, on a board of four:
      bob (account 2) with 8, then eve (account 5) with 38. Both are elected
      to the two seats, eve first. */
  lemma SimpleTallyBoard()
    ensures Accept(Initial(4), Entry(8, Some(2))) == [Entry(0, None), Entry(0, None), Entry(0, None), Entry(8, Some(2))]
    ensures Accept(Accept(Initial(4), Entry(8, Some(2))), Entry(38, Some(5)))
         == [Entry(0, None), Entry(0, None), Entry(8, Some(2)), Entry(38, Some(5))]
    ensures Candidates(Winners([Entry(0, None), Entry(0, None), Entry(8, Some(2)), Entry(38, Some(5))], 2)) == [5, 2]
  {
    FirstPresentation();
    SecondPresentation();
    SimpleTallyWinners();
  }

  lemma FirstPresentation()
    ensures Accept(Initial(4), Entry(8, Some(2))) == [Entry(0, None), Entry(0, None), Entry(0, None), Entry(8, Some(2))]
  {
    assert Initial(4)[1..] == [Entry(0, None), Entry(0, None), Entry(0, None)];
  }

  lemma SecondPresentation()
    ensures Accept([Entry(0, None), Entry(0, None), Entry(0, None), Entry(8, Some(2))], Entry(38, Some(5)))
         == [Entry(0, None), Entry(0, None), Entry(8, Some(2)), Entry(38, Some(5))]
  {
    var board := [Entry(0, None), Entry(0, None), Entry(0, None), Entry(8, Some(2))];
    var rest := [Entry(0, None), Entry(0, None), Entry(8, Some(2))];
    assert board[1..] == rest;
    assert Below(rest, 38) == 3;
  }

  lemma SimpleTallyWinners()
    ensures Candidates(Winners([Entry(0, None), Entry(0, None), Entry(8, Some(2)), Entry(38, Some(5))], 2)) == [5, 2]
  {
    var rest := [Entry(0, None), Entry(0, None), Entry(8, Some(2))];
    var final := [Entry(0, None), Entry(0, None), Entry(8, Some(2)), Entry(38, Some(5))];
    assert final[..3] == rest;
    assert rest[..2] == [Entry(0, None), Entry(0, None)];
    assert TopDown(rest[..2]) == [];
    assert TopDown(rest) == [Entry(8, Some(2))];
    assert TopDown(final) == [Entry(38, Some(5)), Entry(8, Some(2))];
  }

  /** The runners-up test: alice (1) 57, charlie (3) 18, dave (4) 28, eve (5)
      38 fill the board; alice and eve are elected, dave and charlie stay. */
  lemma RunnersUpBoard()
    ensures Candidates(Winners([Entry(18, Some(3)), Entry(28, Some(4)), Entry(38, Some(5)), Entry(57, Some(1))], 2)) == [1, 5]
    ensures Candidates(RunnersUp([Entry(18, Some(3)), Entry(28, Some(4)), Entry(38, Some(5)), Entry(57, Some(1))], 2)) == [4, 3]
  {
    var board := [Entry(18, Some(3)), Entry(28, Some(4)), Entry(38, Some(5)), Entry(57, Some(1))];
    assert board[..3] == [Entry(18, Some(3)), Entry(28, Some(4)), Entry(38, Some(5))];
    assert board[..3][..2] == [Entry(18, Some(3)), Entry(28, Some(4))];
    assert board[..3][..2][..1] == [Entry(18, Some(3))];
    assert TopDown(board[..3][..2][..1]) == [Entry(18, Some(3))];
    assert TopDown(board[..3][..2]) == [Entry(28, Some(4)), Entry(18, Some(3))];
    assert TopDown(board[..3]) == [Entry(38, Some(5)), Entry(28, Some(4)), Entry(18, Some(3))];
    assert TopDown(board) == [Entry(57, Some(1)), Entry(38, Some(5)), Entry(28, Some(4)), Entry(18, Some(3))];
  }
}
