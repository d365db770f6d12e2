/** What a paid assistant call may cost: caps first, then a reservation, then reconciliation. */
module Spending {
  import opened Text
  import opened Ledger

  datatype Mode = Off | OpenrouterFree | PaidApi

  datatype Config = Config(mode: Mode, perRequestCap: int, cumulativeCap: int, account: Option<string>, maxOutputTokens: int)

  datatype Refusal = NotConfigured | PerRequestCapExceeded | CumulativeCapReached | BudgetUnavailable

  function Safe(n: int): nat {
    if 0 <= n <= MAX_SAFE_INTEGER then n else 0
  }

  function RawCost(promptTokens: int, outputTokens: int, inputPrice: int, outputPrice: int): nat {
    Safe(promptTokens) * Safe(inputPrice) + Safe(outputTokens) * Safe(outputPrice)
  }

  /** Prices are per million tokens; the result is rounded up. */
  function EstimateRequestCostMinor(promptTokens: int, outputTokens: int, inputPrice: int, outputPrice: int): nat {
    (RawCost(promptTokens, outputTokens, inputPrice, outputPrice) + 999_999) / 1_000_000
  }

  /** A number that is negative or not a safe integer counts as nothing. */
  ghost predicate CountsAs(n: int, counted: int) {
    counted == if 0 <= n <= 9_007_199_254_740_991 then n else 0
  }

  /** A rounding error never gets a request under a cap: the estimate covers the exact price, input tokens at the input
      price and output tokens at the output price per million, and exceeds it by less than one unit. */
  lemma {:induction false} EstimateCovers(promptTokens: int, outputTokens: int, inputPrice: int, outputPrice: int,
                                          p: int, o: int, i: int, u: int)
    requires CountsAs(promptTokens, p) && CountsAs(outputTokens, o) && CountsAs(inputPrice, i) && CountsAs(outputPrice, u)
    ensures var e := EstimateRequestCostMinor(promptTokens, outputTokens, inputPrice, outputPrice);
      p * i + o * u <= 1_000_000 * e < p * i + o * u + 1_000_000
  {
    assert RawCost(promptTokens, outputTokens, inputPrice, outputPrice) == p * i + o * u;
  }

  /** Nothing when the request may go ahead. */
  function CapDecision(config: Config, estimate: int, exposure: int): Option<Refusal> {
    if config.mode != PaidApi then Some(NotConfigured)
    else if config.perRequestCap <= 0 || config.cumulativeCap <= 0 then Some(NotConfigured)
    else if !IsSafe(estimate) || estimate < 0 then Some(BudgetUnavailable)
    else if estimate > config.perRequestCap then Some(PerRequestCapExceeded)
    else if exposure + estimate > config.cumulativeCap then Some(CumulativeCapReached)
    else None
  }

  datatype Reservation = Reservation(account: string, held: nat)

  /** Which accounting calls throw this time. */
  datatype Faults = Faults(read: bool, reserve: bool, settle: bool, release: bool)

  const SOUND := Faults(false, false, false, false)

  function Keyed(movement: Movement, requestId: string): EntryKey {
    AssistantKey(movement, requestId)
  }

  // ---- reserve ----

  function ReserveSpec(b: Books, faults: Faults, config: Config, estimate: int, requestId: string): (Books, Result<Reservation, Refusal>) {
    if config.mode != PaidApi || config.account.None? then (b, Err(NotConfigured))
    else if faults.read || config.account.value !in b.accounts then (b, Err(BudgetUnavailable))
    else
      var account := config.account.value;
      var decision := CapDecision(config, estimate, Exposure(b.accounts[account]));
      if decision.Some? then (b, Err(decision.value))
      else if estimate == 0 then (b, Ok(Reservation(account, 0)))
      else if faults.reserve then (b, Err(BudgetUnavailable))
      else
        var (after, outcome) := Move(b, Reserve, Keyed(Reserve, requestId), account, estimate);
        (after, if Succeeded(outcome) then Ok(Reservation(account, estimate)) else Err(BudgetUnavailable))
  }

  method ReserveForCall(ledger: Budget, faults: Faults, config: Config, estimate: int, requestId: string)
    returns (r: Result<Reservation, Refusal>)
    modifies ledger
    ensures (ledger.Contents(), r) == ReserveSpec(old(ledger.Contents()), faults, config, estimate, requestId)
  {
    if config.mode != PaidApi || config.account.None? { return Err(NotConfigured); }
    var account := config.account.value;
    if faults.read || account !in ledger.accounts { return Err(BudgetUnavailable); }
    var decision := CapDecision(config, estimate, Exposure(ledger.accounts[account]));
    if decision.Some? { return Err(decision.value); }
    if estimate == 0 { return Ok(Reservation(account, 0)); }
    if faults.reserve { return Err(BudgetUnavailable); }
    var outcome := ledger.Movement(Reserve, Keyed(Reserve, requestId), account, estimate);
    return if Succeeded(outcome) then Ok(Reservation(account, estimate)) else Err(BudgetUnavailable);
  }

  /** Which of the refusals a paid call meets, and which call is let through, reason by reason. */
  lemma {:induction false} RefusedExactlyWhen(b: Books, faults: Faults, config: Config, estimate: int, requestId: string, a: Account)
    requires config.account.Some? && config.account.value in b.accounts ==> a == b.accounts[config.account.value]
    ensures var (after, r) := ReserveSpec(b, faults, config, estimate, requestId);
      var configured := config.mode == PaidApi && config.account.Some?;
      var readable := configured && !faults.read && config.account.value in b.accounts;
      var capped := config.perRequestCap > 0 && config.cumulativeCap > 0;
      var sensible := 0 <= estimate <= 9_007_199_254_740_991;
      var used := a.spent + a.reserved + a.committed;
      var key := AssistantKey(Reserve, requestId);
      var within := readable && capped && sensible && estimate <= config.perRequestCap && used + estimate <= config.cumulativeCap;
      && (r == Err(NotConfigured) <==> !configured || (readable && !capped))
      && (r == Err(PerRequestCapExceeded) <==> readable && capped && sensible && estimate > config.perRequestCap)
      && (r == Err(CumulativeCapReached) <==>
            readable && capped && sensible && estimate <= config.perRequestCap && used + estimate > config.cumulativeCap)
      && (r.Ok? <==> within && (|| estimate == 0
                               || (!faults.reserve && (key in b.entries || used + a.buffer + estimate <= a.limit))))
      && (r.Ok? ==> r.value == Reservation(config.account.value, estimate))
      && (r.Err? || estimate == 0 ==> after == b)
  {
  }

  // ---- reconcile and release ----

  /** Never more than was held, never less than nothing. */
  function Clamped(actual: int, held: nat): nat {
    var a := if IsSafe(actual) then actual else held;
    var capped := if a < held then a else held;
    if capped > 0 then capped else 0
  }

  datatype Reconciled = Reconciled(settled: nat, released: nat, failed: bool)

  function SettleSpec(b: Books, r: Reservation, amount: nat, requestId: string): (Books, bool) {
    if amount == 0 then (b, true)
    else
      var (after, outcome) := Move(b, Settle, Keyed(Settle, requestId), r.account, amount);
      (after, Succeeded(outcome))
  }

  function ReleaseSpec(b: Books, r: Reservation, amount: nat, requestId: string): (Books, bool) {
    if amount == 0 then (b, true)
    else
      var (after, outcome) := Move(b, Release, Keyed(Release, requestId), r.account, amount);
      (after, Succeeded(outcome))
  }

  function ReconcileSpec(b: Books, faults: Faults, r: Reservation, actual: int, requestId: string): (Books, Reconciled) {
    if r.held == 0 then (b, Reconciled(0, 0, false))
    else
      var used := Clamped(actual, r.held);
      var unused := r.held - used;
      if used > 0 && faults.settle then (b, Reconciled(used, unused, true))
      else
        var (settled, ok) := SettleSpec(b, r, used, requestId);
        if unused > 0 && faults.release then (settled, Reconciled(used, unused, true))
        else
          var (released, ok') := ReleaseSpec(settled, r, unused, requestId);
          (released, Reconciled(used, unused, !ok || !ok'))
  }

  method ReconcileAfterCall(ledger: Budget, faults: Faults, r: Reservation, actual: int, requestId: string)
    returns (result: Reconciled)
    modifies ledger
    ensures (ledger.Contents(), result) == ReconcileSpec(old(ledger.Contents()), faults, r, actual, requestId)
  {
    if r.held == 0 { return Reconciled(0, 0, false); }
    var used := Clamped(actual, r.held);
    var unused := r.held - used;
    var failed := false;
    if used > 0 {
      if faults.settle { return Reconciled(used, unused, true); }
      var outcome := ledger.Movement(Settle, Keyed(Settle, requestId), r.account, used);
      if !Succeeded(outcome) { failed := true; }
    }
    if unused > 0 {
      if faults.release { return Reconciled(used, unused, true); }
      var outcome := ledger.Movement(Release, Keyed(Release, requestId), r.account, unused);
      if !Succeeded(outcome) { failed := true; }
    }
    return Reconciled(used, unused, failed);
  }

  function GiveBackSpec(b: Books, faults: Faults, r: Reservation, requestId: string): (Books, bool) {
    if r.held == 0 then (b, true)
    else if faults.release then (b, false)
    else ReleaseSpec(b, r, r.held, requestId)
  }

  method ReleaseReservation(ledger: Budget, faults: Faults, r: Reservation, requestId: string) returns (ok: bool)
    modifies ledger
    ensures (ledger.Contents(), ok) == GiveBackSpec(old(ledger.Contents()), faults, r, requestId)
  {
    if r.held == 0 { return true; }
    if faults.release { return false; }
    var outcome := ledger.Movement(Release, Keyed(Release, requestId), r.account, r.held);
    return Succeeded(outcome);
  }

  // ---- a turn's money, from reservation to reconciliation ----

  /** No movement was ever recorded for this request. */
  ghost predicate FreshId(b: Books, requestId: string) {
    forall movement :: Keyed(movement, requestId) !in b.entries
  }

  /** A granted reservation is really held, and the account stays within the cumulative cap. */
  lemma {:induction false} ReservationIsHeld(b: Books, config: Config, estimate: int, requestId: string)
    requires FreshId(b, requestId) && ReserveSpec(b, SOUND, config, estimate, requestId).1.Ok?
    ensures var (after, r) := ReserveSpec(b, SOUND, config, estimate, requestId);
      && r.value.held == estimate && r.value.account in b.accounts && r.value.account in after.accounts
      && after.accounts[r.value.account]
         == b.accounts[r.value.account].(reserved := b.accounts[r.value.account].reserved + estimate)
      && Exposure(after.accounts[r.value.account]) <= config.cumulativeCap && estimate <= config.perRequestCap
      && (forall a | a in b.accounts && a != r.value.account :: a in after.accounts && after.accounts[a] == b.accounts[a])
      && after.accounts.Keys == b.accounts.Keys
      && Keyed(Settle, requestId) !in after.entries && Keyed(Release, requestId) !in after.entries
  {
  }

  /** Reconciling a held reservation spends what was used, hands back the rest, and leaves nothing held. A cost above the
      hold, or one that is no safe integer, settles the whole hold; a negative one settles nothing. */
  lemma {:induction false} ReconciliationBalances(b: Books, r: Reservation, actual: int, requestId: string)
    requires r.account in b.accounts && b.accounts[r.account].reserved >= r.held
    requires Keyed(Settle, requestId) !in b.entries && Keyed(Release, requestId) !in b.entries
    ensures var (after, result) := ReconcileSpec(b, SOUND, r, actual, requestId);
      && !result.failed && result.settled + result.released == r.held
      && after.accounts == b.accounts[r.account := b.accounts[r.account].(
           spent := b.accounts[r.account].spent + result.settled, reserved := b.accounts[r.account].reserved - r.held)]
      && result.settled == (if !(-9_007_199_254_740_991 <= actual <= 9_007_199_254_740_991) then r.held
                            else if actual <= 0 then 0 else if actual <= r.held then actual else r.held)
  {
  }

  /** Giving a held reservation back whole undoes it. */
  lemma {:induction false} GivingBackBalances(b: Books, r: Reservation, requestId: string)
    requires r.account in b.accounts && b.accounts[r.account].reserved >= r.held
    requires Keyed(Release, requestId) !in b.entries
    ensures var (after, ok) := GiveBackSpec(b, SOUND, r, requestId);
      ok && after.accounts == b.accounts[r.account := b.accounts[r.account].(reserved := b.accounts[r.account].reserved - r.held)]
  {
  }

  /** How a turn comes back to its reservation: without an answer from the provider, with one at a cost, or not at all,
      because something threw in between. */
  datatype Answer = NoAnswer | Answered(actual: int) | Broken

  function TurnSpec(b: Books, faults: Faults, config: Config, estimate: int, requestId: string, answer: Answer): Books {
    var (held, r) := ReserveSpec(b, faults, config, estimate, requestId);
    if r.Err? then held
    else
      match answer
      case NoAnswer => GiveBackSpec(held, faults, r.value, requestId).0
      case Answered(actual) => ReconcileSpec(held, faults, r.value, actual, requestId).0
      case Broken => held
  }

  function Spent(b: Books, faults: Faults, config: Config, estimate: int, requestId: string, answer: Answer): nat {
    var (held, r) := ReserveSpec(b, faults, config, estimate, requestId);
    if r.Err? || !answer.Answered? then 0 else ReconcileSpec(held, faults, r.value, answer.actual, requestId).1.settled
  }

  /** The request may spend and its account is known. */
  predicate Granted(b: Books, config: Config, estimate: int, requestId: string) {
    ReserveSpec(b, SOUND, config, estimate, requestId).1.Ok?
  }

  /** What a turn under a fresh id leaves held: its whole estimate when it was granted and broke off. */
  function Left(b: Books, config: Config, estimate: int, requestId: string, answer: Answer): nat {
    if answer.Broken? && Granted(b, config, estimate, requestId) && estimate > 0 then estimate else 0
  }

  /** One turn with a fresh id: the account spends what was settled and holds what it held before, and what is left. */
  lemma {:induction false} TurnBalances(b: Books, config: Config, estimate: int, requestId: string, answer: Answer, account: string)
    requires config.account == Some(account) && account in b.accounts && FreshId(b, requestId)
    requires b.accounts[account].reserved >= 0 && Exposure(b.accounts[account]) <= config.cumulativeCap
    ensures var after := TurnSpec(b, SOUND, config, estimate, requestId, answer);
      && account in after.accounts
      && after.accounts[account] == b.accounts[account].(
           spent := b.accounts[account].spent + Spent(b, SOUND, config, estimate, requestId, answer),
           reserved := b.accounts[account].reserved + Left(b, config, estimate, requestId, answer))
      && Exposure(after.accounts[account]) <= config.cumulativeCap
  {
    var (held, r) := ReserveSpec(b, SOUND, config, estimate, requestId);
    if r.Ok? {
      ReservationIsHeld(b, config, estimate, requestId);
      match answer
      case NoAnswer => GivingBackBalances(held, r.value, requestId);
      case Answered(actual) => ReconciliationBalances(held, r.value, actual, requestId);
      case Broken =>
    }
  }

  /** The turn's hold is gone when it ends. */
  ghost predicate LeavesNothingHeld(b: Books, faults: Faults, config: Config, estimate: int, requestId: string, answer: Answer,
                                    account: string)
    requires account in b.accounts
  {
    var after := TurnSpec(b, faults, config, estimate, requestId, answer);
    account in after.accounts && after.accounts[account].reserved == b.accounts[account].reserved
  }

  /** The accounting calls that give the reservation back all work. */
  predicate ComesBack(faults: Faults, estimate: nat, answer: Answer) {
    match answer
    case NoAnswer => !faults.release
    case Answered(actual) =>
      var used := Clamped(actual, estimate);
      (used > 0 ==> !faults.settle) && (used < estimate ==> !faults.release)
    case Broken => false
  }

  /** The exact condition, whatever accounting calls throw: a turn under a fresh id leaves nothing held unless it was
      granted something and then broke off or could not give it back. */
  lemma {:induction false} HoldIsReturnedExactlyWhen(b: Books, faults: Faults, config: Config, estimate: int, requestId: string,
                                                     answer: Answer, account: string)
    requires config.account == Some(account) && account in b.accounts && FreshId(b, requestId)
    requires b.accounts[account].reserved >= 0
    ensures LeavesNothingHeld(b, faults, config, estimate, requestId, answer, account)
       <==> || ReserveSpec(b, faults, config, estimate, requestId).1.Err?
            || estimate == 0 || ComesBack(faults, estimate, answer)
  {
    var (held, r) := ReserveSpec(b, faults, config, estimate, requestId);
    if r.Ok? && estimate > 0 {
      assert held.accounts[account].reserved == b.accounts[account].reserved + estimate;
      assert Keyed(Settle, requestId) !in held.entries && Keyed(Release, requestId) !in held.entries;
    }
  }

  /** What a caller can check before the call: with accounting that works, a turn under a fresh id leaves nothing held
      however it ends exactly when it is refused or has nothing to reserve. */
  lemma {:induction false} HoldIsReturnedWhateverComes(b: Books, config: Config, estimate: int, requestId: string, account: string)
    requires config.account == Some(account) && account in b.accounts && FreshId(b, requestId)
    requires b.accounts[account].reserved >= 0
    ensures (forall answer :: LeavesNothingHeld(b, SOUND, config, estimate, requestId, answer, account))
       <==> || CapDecision(config, estimate, Exposure(b.accounts[account])).Some?
            || estimate == 0 || Available(b.accounts[account]) < estimate
  {
    forall answer
      ensures LeavesNothingHeld(b, SOUND, config, estimate, requestId, answer, account)
         <==> !Granted(b, config, estimate, requestId) || estimate == 0 || ComesBack(SOUND, estimate, answer)
    {
      HoldIsReturnedExactlyWhen(b, SOUND, config, estimate, requestId, answer, account);
    }
    if Granted(b, config, estimate, requestId) && estimate > 0 {
      assert !ComesBack(SOUND, estimate, Broken);
    }
  }

  lemma {:induction false} MoveKeepsOtherIds(b: Books, movement: Movement, requestId: string, account: string, amount: int, other: string)
    requires other != requestId && FreshId(b, other)
    ensures FreshId(Move(b, movement, Keyed(movement, requestId), account, amount).0, other)
  {
  }

  lemma {:induction false} TurnKeepsOtherIds(b: Books, config: Config, estimate: int, requestId: string, answer: Answer, other: string)
    requires other != requestId && FreshId(b, other)
    ensures FreshId(TurnSpec(b, SOUND, config, estimate, requestId, answer), other)
  {
    var (held, r) := ReserveSpec(b, SOUND, config, estimate, requestId);
    if r.Ok? {
      MoveKeepsOtherIds(b, Reserve, requestId, r.value.account, estimate, other);
      if answer.Broken? {
      } else if answer.NoAnswer? {
        MoveKeepsOtherIds(held, Release, requestId, r.value.account, r.value.held, other);
      } else {
        var used := Clamped(answer.actual, r.value.held);
        MoveKeepsOtherIds(held, Settle, requestId, r.value.account, used, other);
        var settled := SettleSpec(held, r.value, used, requestId).0;
        MoveKeepsOtherIds(settled, Release, requestId, r.value.account, r.value.held - used, other);
      }
    }
  }

  datatype Turn = Turn(requestId: string, estimate: int, answer: Answer)

  ghost function Turns(b: Books, config: Config, turns: seq<Turn>): Books {
    if turns == [] then b
    else
      var last := turns[|turns| - 1];
      TurnSpec(Turns(b, config, turns[..|turns| - 1]), SOUND, config, last.estimate, last.requestId, last.answer)
  }

  ghost function TotalSpent(b: Books, config: Config, turns: seq<Turn>): nat {
    if turns == [] then 0
    else
      var init, last := turns[..|turns| - 1], turns[|turns| - 1];
      TotalSpent(b, config, init)
      + Spent(Turns(b, config, init), SOUND, config, last.estimate, last.requestId, last.answer)
  }

  ghost function TotalLeft(b: Books, config: Config, turns: seq<Turn>): nat {
    if turns == [] then 0
    else
      var init, last := turns[..|turns| - 1], turns[|turns| - 1];
      TotalLeft(b, config, init) + Left(Turns(b, config, init), config, last.estimate, last.requestId, last.answer)
  }

  /** A history comes to what its parts come to, one after the other. */
  lemma {:induction false} TurnsInParts(b: Books, config: Config, turns: seq<Turn>, more: seq<Turn>, turn: Turn)
    ensures Turns(b, config, []) == b
    ensures Turns(b, config, [turn]) == TurnSpec(b, SOUND, config, turn.estimate, turn.requestId, turn.answer)
    ensures Turns(b, config, turns + more) == Turns(Turns(b, config, turns), config, more)
    decreases |more|
  {
    assert [turn][..0] == [];
    if more == [] {
      assert turns + more == turns;
    } else {
      var n := |more| - 1;
      TurnsInParts(b, config, turns, more[..n], turn);
      assert (turns + more)[..|turns + more| - 1] == turns + more[..n];
    }
  }

  /** Any number of turns one after another, each under its own request id: the exposure never passes the cumulative
      cap, the account spent exactly what the turns settled, and what stays held is exactly what turns that broke off
      had reserved. */
  lemma {:induction false} TurnsStayWithinCap(b: Books, config: Config, turns: seq<Turn>, account: string)
    requires config.account == Some(account) && account in b.accounts
    requires b.accounts[account].reserved >= 0 && Exposure(b.accounts[account]) <= config.cumulativeCap
    requires forall i | 0 <= i < |turns| :: FreshId(b, turns[i].requestId)
    requires forall i, j | 0 <= i < j < |turns| :: turns[i].requestId != turns[j].requestId
    ensures var after := Turns(b, config, turns);
      && account in after.accounts
      && after.accounts[account] == b.accounts[account].(
           spent := b.accounts[account].spent + TotalSpent(b, config, turns),
           reserved := b.accounts[account].reserved + TotalLeft(b, config, turns))
      && Exposure(after.accounts[account]) <= config.cumulativeCap
    ensures (forall i | 0 <= i < |turns| :: !turns[i].answer.Broken?) ==> TotalLeft(b, config, turns) == 0
  {
    if turns != [] {
      var init, last := turns[..|turns| - 1], turns[|turns| - 1];
      TurnsStayWithinCap(b, config, init, account);
      StillFresh(b, config, init, last.requestId);
      TurnBalances(Turns(b, config, init), config, last.estimate, last.requestId, last.answer, account);
    }
  }

  lemma {:induction false} StillFresh(b: Books, config: Config, turns: seq<Turn>, other: string)
    requires FreshId(b, other) && forall i | 0 <= i < |turns| :: turns[i].requestId != other
    ensures FreshId(Turns(b, config, turns), other)
  {
    if turns != [] {
      var init, last := turns[..|turns| - 1], turns[|turns| - 1];
      StillFresh(b, config, init, other);
      TurnKeepsOtherIds(Turns(b, config, init), config, last.estimate, last.requestId, last.answer, other);
    }
  }

  /** A hold that a broken turn left is never given back: after any number of later turns under ids of their own it is
      still there, and what they spend together is short of the cap by it. */
  lemma {:induction false} LeftHoldStays(b: Books, config: Config, broken: Turn, turns: seq<Turn>, account: string)
    requires config.account == Some(account) && account in b.accounts && b.accounts[account].reserved >= 0
    requires broken.answer == Broken && broken.estimate > 0 && Granted(b, config, broken.estimate, broken.requestId)
    requires FreshId(b, broken.requestId)
    requires forall i | 0 <= i < |turns| :: FreshId(b, turns[i].requestId) && turns[i].requestId != broken.requestId
    requires forall i, j | 0 <= i < j < |turns| :: turns[i].requestId != turns[j].requestId
    ensures var start := TurnSpec(b, SOUND, config, broken.estimate, broken.requestId, broken.answer);
      var end := Turns(start, config, turns);
      && account in end.accounts
      && end.accounts[account].reserved >= b.accounts[account].reserved + broken.estimate
      && Exposure(b.accounts[account]) + broken.estimate + TotalSpent(start, config, turns) <= config.cumulativeCap
  {
    var start := TurnSpec(b, SOUND, config, broken.estimate, broken.requestId, broken.answer);
    TurnBalances(b, config, broken.estimate, broken.requestId, broken.answer, account);
    forall i | 0 <= i < |turns|
      ensures FreshId(start, turns[i].requestId)
    {
      TurnKeepsOtherIds(b, config, broken.estimate, broken.requestId, broken.answer, turns[i].requestId);
    }
    TurnsStayWithinCap(start, config, turns, account);
  }

  // ---- a request id used twice ----

  /** What a turn uses of its reservation. */
  function Used(answer: Answer, held: nat): nat {
    if answer.Answered? then Clamped(answer.actual, held) else 0
  }

  /** What a turn hands back of it. */
  function Unused(answer: Answer, held: nat): nat {
    if answer.Broken? then 0 else held - Used(answer, held)
  }

  /** What settling still moves under this id. */
  function Charged(b: Books, account: string, used: nat, requestId: string): nat
    requires account in b.accounts
  {
    if Keyed(Settle, requestId) !in b.entries && used <= b.accounts[account].reserved then used else 0
  }

  /** What handing back still moves under this id, after settling. */
  function HandedBack(b: Books, account: string, used: nat, unused: nat, requestId: string): nat
    requires account in b.accounts
  {
    if Keyed(Release, requestId) !in b.entries
       && unused <= b.accounts[account].reserved - Charged(b, account, used, requestId) then unused else 0
  }

  /** A second reservation under the same id is granted without holding anything. */
  lemma {:induction false} ReusedIdHoldsNothing(b: Books, config: Config, estimate: int, requestId: string)
    requires Keyed(Reserve, requestId) in b.entries
    requires config.account.Some? && config.account.value in b.accounts
    requires CapDecision(config, estimate, Exposure(b.accounts[config.account.value])).None?
    ensures ReserveSpec(b, SOUND, config, estimate, requestId) == (b, Ok(Reservation(config.account.value, estimate)))
  {
  }

  /** A repeat moves money that others hold: it settles and hands back under the keys its first turn left unused, as far
      as the account holds enough, and no failure is reported while it does. */
  lemma {:induction false} RepeatMovesExactly(b: Books, config: Config, estimate: int, requestId: string, answer: Answer, account: string)
    requires Keyed(Reserve, requestId) in b.entries && Granted(b, config, estimate, requestId)
    requires config.account == Some(account) && b.accounts[account].reserved >= 0
    ensures var a, used := b.accounts[account], Used(answer, estimate);
      var charged, back := Charged(b, account, used, requestId), HandedBack(b, account, used, Unused(answer, estimate), requestId);
      && TurnSpec(b, SOUND, config, estimate, requestId, answer).accounts
         == b.accounts[account := a.(spent := a.spent + charged, reserved := a.reserved - charged - back)]
      && (answer.Answered? ==>
            (ReconcileSpec(b, SOUND, Reservation(account, estimate), answer.actual, requestId).1.failed
             <==> || (charged < used && Keyed(Settle, requestId) !in b.entries)
                  || (back < estimate - used && Keyed(Release, requestId) !in b.entries)))
  {
  }

  /** The account pays what the turn reports, and everyone else's holds are left alone. */
  ghost predicate PaysItsOwn(b: Books, config: Config, estimate: int, requestId: string, answer: Answer, account: string)
    requires account in b.accounts
  {
    var a, after := b.accounts[account], TurnSpec(b, SOUND, config, estimate, requestId, answer);
    && account in after.accounts
    && after.accounts[account] == a.(spent := a.spent + Spent(b, SOUND, config, estimate, requestId, answer))
  }

  /** A granted turn whose id was reserved under before, and that either uses something or hands something back. */
  ghost predicate MovesAgain(b: Books, config: Config, estimate: int, requestId: string, answer: Answer, account: string)
    requires account in b.accounts
  {
    && Granted(b, config, estimate, requestId) && estimate > 0 && Keyed(Reserve, requestId) in b.entries
    && (Used(answer, estimate) > 0
        || (!answer.Broken? && Keyed(Release, requestId) !in b.entries && b.accounts[account].reserved >= estimate))
  }

  /** The exact condition: a turn pays its own cost, and nobody else's, unless it moves again under a used id, or breaks
      off with what it reserved under a fresh one. */
  lemma {:induction false} PaysItsOwnExactlyWhen(b: Books, config: Config, estimate: int, requestId: string, answer: Answer,
                                                 account: string)
    requires config.account == Some(account) && account in b.accounts && b.accounts[account].reserved >= 0
    requires Keyed(Reserve, requestId) !in b.entries ==> FreshId(b, requestId)
    ensures PaysItsOwn(b, config, estimate, requestId, answer, account)
       <==> && !MovesAgain(b, config, estimate, requestId, answer, account)
            && (Keyed(Reserve, requestId) !in b.entries ==> Left(b, config, estimate, requestId, answer) == 0)
  {
    if !Granted(b, config, estimate, requestId) || estimate == 0 {
      NothingHeld(b, config, estimate, requestId, answer);
    } else if Keyed(Reserve, requestId) in b.entries {
      RepeatMovesExactly(b, config, estimate, requestId, answer, account);
    } else {
      TurnBalances(b, config, estimate, requestId, answer, account);
    }
  }

  /** What a caller can check before the call: a turn that does not break off pays its own, whatever the provider answers,
      exactly unless the caps let it through, it has an estimate, and its id was reserved under before. With turns that
      may break off, it pays its own however it ends exactly when it is refused or has nothing to reserve. */
  lemma {:induction false} PaysItsOwnWhateverComes(b: Books, config: Config, estimate: int, requestId: string, account: string)
    requires config.account == Some(account) && account in b.accounts && b.accounts[account].reserved >= 0
    requires Keyed(Reserve, requestId) !in b.entries ==> FreshId(b, requestId)
    ensures (forall answer: Answer | !answer.Broken? :: PaysItsOwn(b, config, estimate, requestId, answer, account))
       <==> !(&& CapDecision(config, estimate, Exposure(b.accounts[account])).None?
              && estimate > 0 && Keyed(Reserve, requestId) in b.entries)
    ensures (forall answer :: PaysItsOwn(b, config, estimate, requestId, answer, account))
       <==> !Granted(b, config, estimate, requestId) || estimate == 0
  {
    forall answer
      ensures PaysItsOwn(b, config, estimate, requestId, answer, account)
         <==> && !MovesAgain(b, config, estimate, requestId, answer, account)
              && (Keyed(Reserve, requestId) !in b.entries ==> Left(b, config, estimate, requestId, answer) == 0)
    {
      PaysItsOwnExactlyWhen(b, config, estimate, requestId, answer, account);
    }
    if CapDecision(config, estimate, Exposure(b.accounts[account])).None? && estimate > 0 && Keyed(Reserve, requestId) in b.entries {
      ReusedIdHoldsNothing(b, config, estimate, requestId);
      assert MovesAgain(b, config, estimate, requestId, Answered(estimate), account);
    } else if Granted(b, config, estimate, requestId) && estimate > 0 {
      assert Left(b, config, estimate, requestId, Broken) == estimate;
    }
  }

  lemma {:induction false} NothingHeld(b: Books, config: Config, estimate: int, requestId: string, answer: Answer)
    requires !Granted(b, config, estimate, requestId) || estimate == 0
    ensures Spent(b, SOUND, config, estimate, requestId, answer) == 0
    ensures TurnSpec(b, SOUND, config, estimate, requestId, answer) == b
  {
  }

  /** The assistant never settles or hands back under an id before it reserved under it. */
  ghost predicate Orderly(b: Books) {
    forall requestId | Keyed(Reserve, requestId) !in b.entries :: FreshId(b, requestId)
  }

  /** Everything recorded before is still there, and everything new is this request's. */
  ghost predicate RecordsOwn(b: Books, after: Books, requestId: string) {
    && b.entries.Keys <= after.entries.Keys
    && forall key | key in after.entries && key !in b.entries :: key.AssistantKey? && key.requestId == requestId
  }

  lemma {:induction false} ReserveRecords(b: Books, faults: Faults, config: Config, estimate: int, requestId: string)
    ensures var (held, r) := ReserveSpec(b, faults, config, estimate, requestId);
      && RecordsOwn(b, held, requestId)
      && (held == b || Keyed(Reserve, requestId) in held.entries)
      && (r.Ok? && r.value.held > 0 ==> Keyed(Reserve, requestId) in held.entries)
  {
  }

  lemma {:induction false} EndRecords(b: Books, faults: Faults, r: Reservation, requestId: string, actual: int)
    ensures RecordsOwn(b, ReconcileSpec(b, faults, r, actual, requestId).0, requestId)
    ensures RecordsOwn(b, GiveBackSpec(b, faults, r, requestId).0, requestId)
  {
  }

  /** A turn records movements under its own id only, and others only after its reservation. */
  lemma {:induction false} TurnIsOrderly(b: Books, faults: Faults, config: Config, estimate: int, requestId: string, answer: Answer)
    requires Orderly(b)
    ensures Orderly(TurnSpec(b, faults, config, estimate, requestId, answer))
  {
    var (held, r) := ReserveSpec(b, faults, config, estimate, requestId);
    var after := TurnSpec(b, faults, config, estimate, requestId, answer);
    ReserveRecords(b, faults, config, estimate, requestId);
    if r.Ok? && r.value.held > 0 {
      EndRecords(held, faults, r.value, requestId, if answer.Answered? then answer.actual else 0);
    }
    forall id | Keyed(Reserve, id) !in after.entries
      ensures FreshId(after, id)
    {
      assert FreshId(b, id);
    }
  }

  /** Over every history of turns, with ids repeated at will: the next turn pays its own exactly under that condition. */
  lemma {:induction false} TurnsPayTheirOwn(b: Books, config: Config, turns: seq<Turn>, next: Turn, account: string)
    requires Orderly(b) && config.account == Some(account) && account in b.accounts && b.accounts[account].reserved >= 0
    ensures var before := Turns(b, config, turns);
      && account in before.accounts
      && (PaysItsOwn(before, config, next.estimate, next.requestId, next.answer, account)
          <==> && !MovesAgain(before, config, next.estimate, next.requestId, next.answer, account)
               && (Keyed(Reserve, next.requestId) !in before.entries
                   ==> Left(before, config, next.estimate, next.requestId, next.answer) == 0))
  {
    TurnsAreOrderly(b, config, turns);
    TurnsHoldSomething(b, config, turns, account);
    PaysItsOwnExactlyWhen(Turns(b, config, turns), config, next.estimate, next.requestId, next.answer, account);
  }

  lemma {:induction false} TurnHoldsSomething(b: Books, config: Config, estimate: int, requestId: string, answer: Answer, account: string)
    requires config.account == Some(account) && account in b.accounts && b.accounts[account].reserved >= 0
    requires Keyed(Reserve, requestId) !in b.entries ==> FreshId(b, requestId)
    ensures var after := TurnSpec(b, SOUND, config, estimate, requestId, answer);
      account in after.accounts && after.accounts[account].reserved >= 0
  {
    if !Granted(b, config, estimate, requestId) || estimate == 0 {
      NothingHeld(b, config, estimate, requestId, answer);
    } else if Keyed(Reserve, requestId) in b.entries {
      RepeatMovesExactly(b, config, estimate, requestId, answer, account);
    } else {
      TurnBalances(b, config, estimate, requestId, answer, account);
    }
  }

  lemma {:induction false} TurnsHoldSomething(b: Books, config: Config, turns: seq<Turn>, account: string)
    requires Orderly(b) && config.account == Some(account) && account in b.accounts && b.accounts[account].reserved >= 0
    ensures var after := Turns(b, config, turns); account in after.accounts && after.accounts[account].reserved >= 0
  {
    if turns != [] {
      var init, last := turns[..|turns| - 1], turns[|turns| - 1];
      TurnsHoldSomething(b, config, init, account);
      TurnsAreOrderly(b, config, init);
      TurnHoldsSomething(Turns(b, config, init), config, last.estimate, last.requestId, last.answer, account);
    }
  }

  lemma {:induction false} TurnsAreOrderly(b: Books, config: Config, turns: seq<Turn>)
    requires Orderly(b)
    ensures Orderly(Turns(b, config, turns))
  {
    if turns != [] {
      var init, last := turns[..|turns| - 1], turns[|turns| - 1];
      TurnsAreOrderly(b, config, init);
      TurnIsOrderly(Turns(b, config, init), SOUND, config, last.estimate, last.requestId, last.answer);
    }
  }

  /** The worst case: a turn that used its whole reservation, then a repeat of its id that uses less, or gets no answer.
      The repeat hands the difference back out of what other requests hold. */
  lemma {:induction false} RepeatDrainsOthers(b: Books, config: Config, estimate: nat, requestId: string, again: Answer, account: string)
    requires FreshId(b, requestId) && config.account == Some(account) && estimate > 0
    requires account in b.accounts && b.accounts[account].reserved >= estimate
    requires Granted(b, config, estimate, requestId)
    requires Granted(TurnSpec(b, SOUND, config, estimate, requestId, Answered(estimate)), config, estimate, requestId)
    ensures var once := TurnSpec(b, SOUND, config, estimate, requestId, Answered(estimate));
      var twice := TurnSpec(once, SOUND, config, estimate, requestId, again);
      && account in twice.accounts
      && twice.accounts[account] == b.accounts[account].(
           spent := b.accounts[account].spent + estimate,
           reserved := b.accounts[account].reserved - Unused(again, estimate))
      && (again.Answered? ==>
            !ReconcileSpec(once, SOUND, Reservation(account, estimate), again.actual, requestId).1.failed)
  {
    var once := TurnSpec(b, SOUND, config, estimate, requestId, Answered(estimate));
    TurnBalances(b, config, estimate, requestId, Answered(estimate), account);
    UsedWhole(b, config, estimate, requestId);
    RepeatMovesExactly(once, config, estimate, requestId, again, account);
  }

  /** A turn that uses its whole reservation leaves its hand-back key free. */
  lemma {:induction false} UsedWhole(b: Books, config: Config, estimate: nat, requestId: string)
    requires FreshId(b, requestId) && estimate > 0 && Granted(b, config, estimate, requestId)
    requires b.accounts[config.account.value].reserved >= 0
    ensures var once := TurnSpec(b, SOUND, config, estimate, requestId, Answered(estimate));
      && Keyed(Reserve, requestId) in once.entries && Keyed(Settle, requestId) in once.entries
      && Keyed(Release, requestId) !in once.entries
    ensures Spent(b, SOUND, config, estimate, requestId, Answered(estimate)) == estimate
  {
    ReservationIsHeld(b, config, estimate, requestId);
  }

  /** After a turn that was answered in part, a repeat under its id is answered and charged nothing at all. */
  lemma {:induction false} ReusedIdIsFree(b: Books, config: Config, estimate: int, requestId: string, answer: Answer)
    requires forall movement :: movement != Commit ==> Keyed(movement, requestId) in b.entries
    ensures TurnSpec(b, SOUND, config, estimate, requestId, answer) == b
  {
  }

  /** After a turn whose reservation was given back, a repeat under its id settles out of what other requests hold,
      and fails exactly when they hold too little. */
  lemma {:induction false} ReusedIdDrawsOnOthers(b: Books, r: Reservation, actual: int, requestId: string)
    requires Keyed(Settle, requestId) !in b.entries && Keyed(Release, requestId) in b.entries
    requires r.account in b.accounts && Clamped(actual, r.held) > 0
    ensures var (after, result) := ReconcileSpec(b, SOUND, r, actual, requestId);
      && (result.failed <==> b.accounts[r.account].reserved < Clamped(actual, r.held))
      && (!result.failed ==> after.accounts[r.account].reserved == b.accounts[r.account].reserved - Clamped(actual, r.held))
      && (result.failed ==> after == b)
  {
  }
}
