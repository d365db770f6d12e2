/** The spending budget: accounts, and movements that happen at most once per idempotency key. */
module Ledger {

  /** Integer minor units. */
  datatype Account = Account(limit: int, spent: int, reserved: int, committed: int, buffer: int)

  /** `assistant:<op>:<request id>`, or a key some other part of the product wrote. */
  datatype EntryKey = AssistantKey(movement: Movement, requestId: string) | OtherKey(text: string)

  datatype Movement = Reserve | Release | Settle | Commit

  datatype Entry = Entry(account: string, movement: Movement, amount: int)

  datatype Books = Books(accounts: map<string, Account>, entries: map<EntryKey, Entry>)

  datatype Outcome = Moved | Repeated | InsufficientFunds | AccountNotFound

  function Available(a: Account): int {
    a.limit - a.spent - a.reserved - a.committed - a.buffer
  }

  function Exposure(a: Account): int {
    a.spent + a.reserved + a.committed
  }

  predicate Guard(a: Account, movement: Movement, amount: int) {
    if movement == Reserve then Available(a) >= amount else a.reserved >= amount
  }

  function Update(a: Account, movement: Movement, amount: int): Account {
    match movement
    case Reserve => a.(reserved := a.reserved + amount)
    case Release => a.(reserved := a.reserved - amount)
    case Settle => a.(reserved := a.reserved - amount, spent := a.spent + amount)
    case Commit => a.(reserved := a.reserved - amount, committed := a.committed + amount)
  }

  predicate Succeeded(o: Outcome) {
    o == Moved || o == Repeated
  }

  /** A known key moves nothing and reports success; otherwise entry and account change together or not at all. */
  function Move(b: Books, movement: Movement, key: EntryKey, account: string, amount: int): (Books, Outcome) {
    if key in b.entries then (b, Repeated)
    else if account !in b.accounts then (b, AccountNotFound)
    else if !Guard(b.accounts[account], movement, amount) then (b, InsufficientFunds)
    else
      (Books(b.accounts[account := Update(b.accounts[account], movement, amount)],
             b.entries[key := Entry(account, movement, amount)]), Moved)
  }

  class Budget {
    var accounts: map<string, Account>
    var entries: map<EntryKey, Entry>

    ghost function Contents(): Books reads this { Books(accounts, entries) }

    constructor (accounts: map<string, Account>)
      ensures Contents() == Books(accounts, map[])
    {
      this.accounts := accounts;
      this.entries := map[];
    }

    method Movement(movement: Movement, key: EntryKey, account: string, amount: int) returns (outcome: Outcome)
      requires amount > 0
      modifies this
      ensures (Contents(), outcome) == Move(old(Contents()), movement, key, account, amount)
    {
      if key in entries { return Repeated; }
      if account !in accounts { return AccountNotFound; }
      var a := accounts[account];
      if !Guard(a, movement, amount) { return InsufficientFunds; }
      entries := entries[key := Entry(account, movement, amount)];
      accounts := accounts[account := Update(a, movement, amount)];
      return Moved;
    }
  }

  /** One movement, field by field: a known key repeats, an unknown account is reported, and otherwise it moves exactly
      when the account can cover it. Only a reservation draws on what is free, the rest on what is reserved. */
  lemma {:induction false} MovementExactly(b: Books, movement: Movement, key: EntryKey, account: string, amount: int, a: Account)
    requires account in b.accounts ==> a == b.accounts[account]
    ensures var (after, outcome) := Move(b, movement, key, account, amount);
      var covered := if movement == Reserve then a.spent + a.reserved + a.committed + a.buffer + amount <= a.limit
                     else amount <= a.reserved;
      && (outcome == Repeated <==> key in b.entries)
      && (outcome == AccountNotFound <==> key !in b.entries && account !in b.accounts)
      && (outcome == InsufficientFunds <==> key !in b.entries && account in b.accounts && !covered)
      && (outcome != Moved ==> after == b)
      && (outcome == Moved ==>
            && after.entries == b.entries[key := Entry(account, movement, amount)]
            && after.accounts == b.accounts[account := Account(
                 a.limit,
                 if movement == Settle then a.spent + amount else a.spent,
                 if movement == Reserve then a.reserved + amount else a.reserved - amount,
                 if movement == Commit then a.committed + amount else a.committed,
                 a.buffer)])
  {
  }

  // ---- whole histories of movements ----

  datatype Request = Request(movement: Movement, key: EntryKey, account: string, amount: nat)

  ghost function Run(b: Books, requests: seq<Request>): Books {
    if requests == [] then b
    else
      var last := requests[|requests| - 1];
      Move(Run(b, requests[..|requests| - 1]), last.movement, last.key, last.account, last.amount).0
  }

  /** A history comes to what its parts come to, one after the other. */
  lemma {:induction false} RunInParts(b: Books, requests: seq<Request>, more: seq<Request>, r: Request)
    ensures Run(b, []) == b && Run(b, [r]) == Move(b, r.movement, r.key, r.account, r.amount).0
    ensures Run(b, requests + more) == Run(Run(b, requests), more)
    decreases |more|
  {
    assert [r][..0] == [];
    if more == [] {
      assert requests + more == requests;
    } else {
      var n := |more| - 1;
      RunInParts(b, requests, more[..n], r);
      assert (requests + more)[..|requests + more| - 1] == requests + more[..n];
    }
  }

  /** What this request moves, of this kind, on this account. */
  function MovedBy(b: Books, r: Request, account: string, movement: Movement): nat {
    var moved := Move(b, r.movement, r.key, r.account, r.amount).1 == Moved;
    if moved && r.account == account && r.movement == movement then r.amount else 0
  }

  ghost function Sum(b: Books, requests: seq<Request>, account: string, movement: Movement): nat {
    if requests == [] then 0
    else
      var init, last := requests[..|requests| - 1], requests[|requests| - 1];
      Sum(b, init, account, movement) + MovedBy(Run(b, init), last, account, movement)
  }

  lemma {:induction false} MoveIsSound(b: Books, r: Request, account: string, after: Books)
    requires account in b.accounts && Sound(b.accounts[account])
    requires after == Move(b, r.movement, r.key, r.account, r.amount).0
    ensures account in after.accounts && Sound(after.accounts[account])
    ensures var x, y := b.accounts[account], after.accounts[account];
      && y.reserved - x.reserved == MovedBy(b, r, account, Reserve) - MovedBy(b, r, account, Release)
                                    - MovedBy(b, r, account, Settle) - MovedBy(b, r, account, Commit)
      && y.spent - x.spent == MovedBy(b, r, account, Settle)
      && y.committed - x.committed == MovedBy(b, r, account, Commit)
      && y.limit == x.limit && y.buffer == x.buffer
  {
  }

  ghost predicate Sound(a: Account) {
    a.spent >= 0 && a.reserved >= 0 && a.committed >= 0 && Exposure(a) + a.buffer <= a.limit
  }

  /** Any movements in any order, retried or not: what was reserved is still held, spent, committed or handed back,
      and an account that is inside its limit stays inside it. */
  lemma {:induction false} MoneyIsConserved(b: Books, requests: seq<Request>, account: string)
    requires account in b.accounts && Sound(b.accounts[account])
    ensures account in Run(b, requests).accounts && Sound(Run(b, requests).accounts[account])
    ensures var before, after := b.accounts[account], Run(b, requests).accounts[account];
      && after.reserved - before.reserved
         == Sum(b, requests, account, Reserve) - Sum(b, requests, account, Release)
            - Sum(b, requests, account, Settle) - Sum(b, requests, account, Commit)
      && after.spent - before.spent == Sum(b, requests, account, Settle)
      && after.committed - before.committed == Sum(b, requests, account, Commit)
      && after.limit == before.limit && after.buffer == before.buffer
  {
    if requests != [] {
      var init := requests[..|requests| - 1];
      MoneyIsConserved(b, init, account);
      MoveIsSound(Run(b, init), requests[|requests| - 1], account, Run(b, requests));
    }
  }

  /** However often a request is repeated, its key moves money at most once. */
  lemma {:induction false} MovedOnce(b: Books, requests: seq<Request>, key: EntryKey)
    requires key in b.entries
    ensures key in Run(b, requests).entries && Run(b, requests).entries[key] == b.entries[key]
    ensures forall i | 0 <= i < |requests| && requests[i].key == key ::
              Move(Run(b, requests[..i]), requests[i].movement, key, requests[i].account, requests[i].amount).1 == Repeated
  {
    if requests != [] {
      var init := requests[..|requests| - 1];
      MovedOnce(b, init, key);
      assert forall i | 0 <= i < |init| :: init[i] == requests[i] && init[..i] == requests[..i];
    }
  }
}
