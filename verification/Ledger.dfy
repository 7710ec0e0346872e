/** A plain ERC-20 token: balances by address, with the zero address refused as sender and recipient. */
module Ledger {
  import opened Wrappers

  /** 0 is the zero address. */
  type Address = nat

  /** 2^256 - 1 */
  const MAX_UINT256: nat := 0xffff_ffff_ffff_ffff_ffff_ffff_ffff_ffff_ffff_ffff_ffff_ffff_ffff_ffff_ffff_ffff

  type Balances = map<Address, nat>

  function BalanceOf(b: Balances, a: Address): nat {
    if a in b then b[a] else 0
  }

  function Transfer(b: Balances, from: Address, to: Address, amount: nat): Option<Balances> {
    if from == 0 || to == 0 then
      None
    else
      :- Require(amount <= BalanceOf(b, from));
      var debited := b[from := BalanceOf(b, from) - amount];
      Some(debited[to := BalanceOf(debited, to) + amount])
  }

  /** A transfer by a third party, which the sender's allowance must cover. */
  function TransferFrom(b: Balances, from: Address, to: Address, amount: nat, approved: bool): Option<Balances> {
    if approved then
      Transfer(b, from, to, amount)
    else
      None
  }

  /** A transfer needs two accounts and the balance, and nothing else. */
  lemma TransferExactly(b: Balances, from: Address, to: Address, amount: nat, approved: bool)
    ensures Transfer(b, from, to, amount).Some? <==> from != 0 && to != 0 && amount <= BalanceOf(b, from)
    ensures TransferFrom(b, from, to, amount, approved)
         == if approved then Transfer(b, from, to, amount) else None
  {
  }

  /** What a transfer does to every balance, including when sender and recipient are the same. */
  lemma TransferDelta(b: Balances, from: Address, to: Address, amount: nat, a: Address)
    requires Transfer(b, from, to, amount).Some?
    ensures BalanceOf(Transfer(b, from, to, amount).value, a)
         == BalanceOf(b, a) - (if a == from then amount else 0) + (if a == to then amount else 0)
  {
  }

  class Token {
    var balances: Balances

    constructor ()
      ensures balances == map[]
    {
      balances := map[];
    }

    method SafeTransfer(from: Address, to: Address, amount: nat) returns (ok: bool)
      modifies this
      ensures ok <==> Transfer(old(balances), from, to, amount).Some?
      ensures balances == if ok then Transfer(old(balances), from, to, amount).value else old(balances)
    {
      ok := from != 0 && to != 0 && amount <= BalanceOf(balances, from);
      if ok {
        balances := balances[from := BalanceOf(balances, from) - amount];
        balances := balances[to := BalanceOf(balances, to) + amount];
      }
    }

    method SafeTransferFrom(from: Address, to: Address, amount: nat, approved: bool) returns (ok: bool)
      modifies this
      ensures ok <==> TransferFrom(old(balances), from, to, amount, approved).Some?
      ensures balances == if ok then TransferFrom(old(balances), from, to, amount, approved).value else old(balances)
    {
      if approved {
        ok := SafeTransfer(from, to, amount);
      } else {
        ok := false;
      }
    }
  }
}
