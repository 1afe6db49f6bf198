/**
 * Bond refunds against the ledger: crediting a list of accounts one after the
 * other, each by the same amount.
 */
module Ledger {
  import opened CouncilTypes
  import opened Slots

  /** The balances after crediting `amount` to each of `accounts` in turn. */
  function Credit(balances: map<AccountId, Balance>, accounts: seq<AccountId>, amount: Balance): map<AccountId, Balance>
  {
    if |accounts| == 0 then balances
    else
      var before := Credit(balances, accounts[..|accounts| - 1], amount);
      var last := accounts[|accounts| - 1];
      before[last := BalanceOf(before, last) + amount]
  }

  /** When no account is listed twice, each listed account gains exactly
      `amount` and every other balance stays as it was. */
  lemma {:induction false} CreditExact(balances: map<AccountId, Balance>, accounts: seq<AccountId>,
                                       amount: Balance, who: AccountId)
    requires Distinct(accounts)
    ensures BalanceOf(Credit(balances, accounts, amount), who)
         == BalanceOf(balances, who) + (if who in accounts then amount else 0)
  {
    if |accounts| > 0 {
      var init := accounts[..|accounts| - 1];
      CreditExact(balances, init, amount, who);
      assert accounts == init + [accounts[|accounts| - 1]];
    }
  }

  /** The refund loop: credits `amount` to each account of `accounts`, in order. */
  method RefundAll(balances: map<AccountId, Balance>, accounts: seq<AccountId>, amount: Balance)
    returns (updated: map<AccountId, Balance>)
    ensures updated == Credit(balances, accounts, amount)
  {
    updated := balances;
    var i := 0;
    while i < |accounts|
      invariant 0 <= i <= |accounts|
      invariant updated == Credit(balances, accounts[..i], amount)
    {
      var who := accounts[i];
      assert accounts[..i + 1][..i] == accounts[..i];
      updated := updated[who := BalanceOf(updated, who) + amount];
      i := i + 1;
    }
    assert accounts[..i] == accounts;
  }
}
