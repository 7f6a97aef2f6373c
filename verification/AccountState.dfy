/**
 The mock account state of mobile/scripts/mock-server-account-state.ts: selecting accounts and redeeming
 reset credits under idempotency keys.

 `Redeem` is one redemption as a function of the state; `Accounts` keeps the module's variables as
 fields and is proved to follow it.  The theorems are about every run of selections and redemptions.
 */
module AccountState {
  import opened Options

  const PERSONAL := "codex-personal"
  const TEAM := "codex-team"
  const MINUTE := 60000
  const DAY := 86400000
  const MAX_SAFE_INTEGER := 9007199254740991

  datatype Account = Account(id: string, updatedAt: int)

  const CODEX_ACCOUNTS := [Account(PERSONAL, 1), Account(TEAM, 2)]

  datatype Usage = Usage(availableResetCredits: int, sessionUsedPercent: int, updatedAt: int, nextExpiresAt: int)

  datatype Window = Window(usedPercent: int, windowMinutes: int, resetsAt: int)

  // Without a session the limits are those of "no managed account selected".
  datatype Limits = Limits(availableCount: int, totalEarnedCount: int, nextExpiresAt: Option<int>,
                           session: Option<Window>, weekly: Option<Window>, updatedAt: int)

  // The host-target scope a client must present.  The offer revision lists exactly the fields of the limits.
  datatype Scope = Scope(accountId: string, accountRevision: int, offer: Limits)

  // A parameter of a request, whatever its JSON type
  datatype Param = Missing | Null | Text(text: string)

  // The scope a client presents.  `Given(s)` is the object whose JSON text is that of `s`; any other object
  // is known by its own text.
  datatype Supplied = NoObject | Given(scope: Scope) | Foreign(json: string)

  datatype Outcome = Reset | NoCredit

  datatype Operation = Operation(scopeKey: Supplied, outcome: Outcome)

  datatype Error = UnknownAccount | InvalidKey | MissingScope | DifferentScope | OfferTaken

  datatype Answer = Redeemed(outcome: Outcome, scope: Supplied) | OfferChanged(scope: Supplied) | Thrown(error: Error)

  datatype State = State(startedAt: int, claude: Option<string>, codex: Option<string>, usage: map<string, Usage>,
                         operations: map<string, Operation>, offerOwners: map<Supplied, string>)

  // ---------- scopes ----------

  predicate IsHex(c: char) { '0' <= c <= '9' || 'a' <= c <= 'f' || 'A' <= c <= 'F' }

  predicate IsUuid(s: string) {
    |s| == 36 && forall i :: 0 <= i < 36 ==>
                   if i in {8, 13, 18, 23} then s[i] == '-'
                   else if i == 14 then '1' <= s[i] <= '8'
                   else if i == 19 then s[i] in "89abAB"
                   else IsHex(s[i])
  }

  function InitialUsage(startedAt: int, offset: int): Usage {
    Usage(1, 100, startedAt + offset, startedAt + (5 + offset) * DAY)
  }

  function Initial(now: int): State {
    State(now, Some("claude-team"), Some(PERSONAL), map[PERSONAL := InitialUsage(now, 0), TEAM := InitialUsage(now, 1)], map[], map[])
  }

  function LimitsFor(startedAt: int, usage: map<string, Usage>, id: Option<string>): Limits {
    if id.None? || id.value !in usage then Limits(0, 0, None, None, None, startedAt)
    else
      var u := usage[id.value];
      Limits(u.availableResetCredits, 2, if u.availableResetCredits > 0 then Some(u.nextExpiresAt) else None,
             Some(Window(u.sessionUsedPercent, 300, startedAt + 90 * MINUTE)),
             Some(Window(77, 10080, startedAt + 3 * DAY)), u.updatedAt)
  }

  predicate IsRevision(n: int) { 0 <= n <= MAX_SAFE_INTEGER }

  function BuildScope(account: Option<Account>, limits: Limits): Option<Scope> {
    if account.None? || limits.availableCount <= 0 || !IsRevision(account.value.updatedAt) || !IsRevision(limits.updatedAt) then None
    else Some(Scope(account.value.id, account.value.updatedAt, limits))
  }

  function AccountOf(id: Option<string>): Option<Account> {
    if id == Some(PERSONAL) then Some(CODEX_ACCOUNTS[0]) else if id == Some(TEAM) then Some(CODEX_ACCOUNTS[1]) else None
  }

  // The scope a redemption must present now, if the active account has an offer
  function ResetScope(s: State): Option<Scope> {
    BuildScope(AccountOf(s.codex), LimitsFor(s.startedAt, s.usage, s.codex))
  }

  datatype Inactive = Inactive(accountId: string, limits: Limits, updatedAt: int)

  // Everything in a snapshot that depends on the state
  datatype Snapshot = Snapshot(startedAt: int, claude: Option<string>, codex: Option<string>, limits: Limits, inactive: seq<Inactive>)

  function InactiveOf(s: State, accounts: seq<Account>): seq<Inactive> {
    if accounts == [] then []
    else
      var id := Some(accounts[0].id);
      (if id == s.codex then []
       else [Inactive(id.value, LimitsFor(s.startedAt, s.usage, id), if id.value in s.usage then s.usage[id.value].updatedAt else s.startedAt)])
      + InactiveOf(s, accounts[1..])
  }

  function SnapshotOf(s: State): Snapshot {
    Snapshot(s.startedAt, s.claude, s.codex, LimitsFor(s.startedAt, s.usage, s.codex), InactiveOf(s, CODEX_ACCOUNTS))
  }

  // ---------- steps ----------

  datatype Step = SelectClaude(id: Param) | SelectCodex(id: Param) | Consume(key: Param, supplied: Supplied)

  function Chosen(id: Param): Option<string> { if id.Text? then Some(id.text) else None }

  function Spent(u: Usage): Usage { Usage(0, 0, u.updatedAt + 1, u.nextExpiresAt) }

  function Redeem(s: State, key: Param, supplied: Supplied): (State, Answer) {
    if !key.Text? || !IsUuid(key.text) then (s, Thrown(InvalidKey))
    else if supplied.NoObject? then (s, Thrown(MissingScope))
    else if key.text in s.operations then
      (s, if s.operations[key.text].scopeKey != supplied then Thrown(DifferentScope) else Redeemed(s.operations[key.text].outcome, supplied))
    else
      var current := ResetScope(s);
      if current.None? || Given(current.value) != supplied then (s, OfferChanged(supplied))
      else if supplied in s.offerOwners && s.offerOwners[supplied] != key.text then (s, Thrown(OfferTaken))
      else
        var id := current.value.accountId;
        var outcome := if id in s.usage && s.usage[id].availableResetCredits > 0 then Reset else NoCredit;
        (s.(offerOwners := s.offerOwners[supplied := key.text],
         operations := s.operations[key.text := Operation(supplied, outcome)],
         usage := if outcome.Reset? then s.usage[id := Spent(s.usage[id])] else s.usage),
         Redeemed(outcome, supplied))
  }

  predicate Selectable(step: Step) {
    match step
    case SelectClaude(id) => id.Null? || (id.Text? && id.text in ["claude-team", "claude-personal"])
    case SelectCodex(id) => id.Null? || (id.Text? && id.text in [PERSONAL, TEAM])
    case Consume(_, _) => true
  }

  // A selection of an unknown account throws and changes nothing.
  function After(s: State, step: Step): State {
    if !Selectable(step) then s
    else
      match step
      case SelectClaude(id) => s.(claude := Chosen(id))
      case SelectCodex(id) => s.(codex := Chosen(id))
      case Consume(key, supplied) => Redeem(s, key, supplied).0
  }

  function Run(s: State, steps: seq<Step>): State
    decreases |steps|
  {
    if steps == [] then s else Run(After(s, steps[0]), steps[1..])
  }

  // ---------- the module's variables ----------

  class Accounts {
    var fixtureStartedAt: int
    var activeClaude: Option<string>
    var activeCodex: Option<string>
    var usageByAccount: map<string, Usage>
    var resetOperations: map<string, Operation>
    var resetOfferOwners: map<Supplied, string>

    function View(): State
      reads this
    {
      State(fixtureStartedAt, activeClaude, activeCodex, usageByAccount, resetOperations, resetOfferOwners)
    }

    constructor (now: int)
      ensures View() == Initial(now)
    {
      fixtureStartedAt := now;
      activeClaude := Some("claude-team");
      activeCodex := Some(PERSONAL);
      usageByAccount := map[PERSONAL := InitialUsage(now, 0), TEAM := InitialUsage(now, 1)];
      resetOperations := map[];
      resetOfferOwners := map[];
    }

    method SelectClaude(id: Param) returns (error: Option<Error>)
      modifies this
      ensures View() == After(old(View()), Step.SelectClaude(id))
      ensures error == if Selectable(Step.SelectClaude(id)) then None else Some(UnknownAccount)
    {
      if id.Null? {
        activeClaude := None;
        return None;
      }
      if id != Text("claude-team") && id != Text("claude-personal") {
        return Some(UnknownAccount);
      }
      activeClaude := Some(id.text);
      return None;
    }

    method SelectCodex(id: Param) returns (error: Option<Error>)
      modifies this
      ensures View() == After(old(View()), Step.SelectCodex(id))
      ensures error == if Selectable(Step.SelectCodex(id)) then None else Some(UnknownAccount)
    {
      if id.Null? {
        activeCodex := None;
        return None;
      }
      if !id.Text? || AccountOf(Some(id.text)).None? {
        return Some(UnknownAccount);
      }
      activeCodex := Some(id.text);
      return None;
    }

    method ConsumeResetCredit(key: Param, expected: Supplied) returns (answer: Answer)
      modifies this
      ensures (View(), answer) == Redeem(old(View()), key, expected)
    {
      if !key.Text? || !IsUuid(key.text) {
        return Thrown(InvalidKey);
      }
      if expected.NoObject? {
        return Thrown(MissingScope);
      }
      if key.text in resetOperations {
        var previous := resetOperations[key.text];
        if previous.scopeKey != expected {
          return Thrown(DifferentScope);
        }
        return Redeemed(previous.outcome, expected);
      }
      var current := ResetScope(View());
      if current.None? || Given(current.value) != expected {
        return OfferChanged(expected);
      }
      if expected in resetOfferOwners && resetOfferOwners[expected] != key.text {
        return Thrown(OfferTaken);
      }
      resetOfferOwners := resetOfferOwners[expected := key.text];
      var id := current.value.accountId;
      var outcome := if id in usageByAccount && usageByAccount[id].availableResetCredits > 0 then Reset else NoCredit;
      resetOperations := resetOperations[key.text := Operation(expected, outcome)];
      if outcome.Reset? {
        var usage := usageByAccount[id];
        usage := usage.(availableResetCredits := 0);
        usage := usage.(sessionUsedPercent := 0);
        usage := usage.(updatedAt := usage.updatedAt + 1);
        usageByAccount := usageByAccount[id := usage];
      }
      return Redeemed(outcome, expected);
    }
  }

  // ---------- every run ----------

  // The keys whose recorded operation reset the account
  ghost function ResetsOf(s: State, account: string): set<string> {
    set k | k in s.operations && s.operations[k].outcome.Reset? && s.operations[k].scopeKey.Given? && s.operations[k].scopeKey.scope.accountId == account
  }

  // Every recorded operation owns its offer, and every owned offer was recorded by its owner
  ghost predicate Inverse(operations: map<string, Operation>, owners: map<Supplied, string>) {
    && (forall k :: k in operations ==> operations[k].scopeKey in owners && owners[operations[k].scopeKey] == k)
    && (forall o :: o in owners ==> owners[o] in operations && operations[owners[o]].scopeKey == o)
  }

  // Each account's credits and resets add up to the one credit it started with.
  ghost predicate Balanced(s: State) {
    forall a :: a in s.usage ==> s.usage[a].availableResetCredits >= 0 && s.usage[a].availableResetCredits + |ResetsOf(s, a)| == 1
  }

  // Keys and offers own each other, every recorded operation is a reset of a known account, and credits balance.
  ghost predicate Sound(s: State) {
    && s.usage.Keys == {PERSONAL, TEAM}
    && (s.codex.Some? ==> s.codex.value in s.usage)
    && Inverse(s.operations, s.offerOwners)
    && (forall k :: k in s.operations ==> s.operations[k].outcome.Reset? && s.operations[k].scopeKey.Given? && s.operations[k].scopeKey.scope.accountId in s.usage)
    && Balanced(s)
  }

  lemma SoundInitially(now: int)
    ensures Sound(Initial(now))
  {
    var s := Initial(now);
    assert ResetsOf(s, PERSONAL) == {} && ResetsOf(s, TEAM) == {};
  }

  // An owned offer is spent: its account has no credit left, so it is not the current scope.
  lemma OwnedOfferIsGone(s: State, offer: Supplied)
    requires Sound(s) && offer in s.offerOwners
    ensures offer.Given? && offer.scope.accountId in s.usage && s.usage[offer.scope.accountId].availableResetCredits == 0
    ensures ResetScope(s).None? || Given(ResetScope(s).value) != offer
  {
    var k := s.offerOwners[offer];
    var a := offer.scope.accountId;
    assert k in ResetsOf(s, a);
  }

  // What a redemption answers, and that the taken-offer error and the no-credit outcome never occur
  lemma RedeemAnswers(s: State, key: string, supplied: Supplied)
    requires Sound(s) && IsUuid(key) && !supplied.NoObject?
    ensures var answer := Redeem(s, Text(key), supplied).1;
            && answer != Thrown(OfferTaken)
            && (answer.Redeemed? ==> answer.outcome.Reset? && answer.scope == supplied)
            && (answer.Redeemed? <==> (key in s.operations && s.operations[key].scopeKey == supplied)
                                      || (key !in s.operations && ResetScope(s).Some? && Given(ResetScope(s).value) == supplied))
            && (answer == Thrown(DifferentScope) <==> key in s.operations && s.operations[key].scopeKey != supplied)
  {
    if supplied in s.offerOwners { OwnedOfferIsGone(s, supplied); }
  }

  // The state with one more reset recorded under a fresh key
  ghost function Recorded(s: State, key: string, scope: Scope): State
    requires scope.accountId in s.usage
  {
    s.(offerOwners := s.offerOwners[Given(scope) := key],
       operations := s.operations[key := Operation(Given(scope), Reset)],
       usage := s.usage[scope.accountId := Spent(s.usage[scope.accountId])])
  }

  lemma ResetsRecorded(s: State, key: string, scope: Scope, account: string)
    requires key !in s.operations && scope.accountId in s.usage
    ensures ResetsOf(Recorded(s, key, scope), account) ==
            if account == scope.accountId then ResetsOf(s, account) + {key} else ResetsOf(s, account)
  {
  }

  lemma BalancedRecorded(s: State, key: string, scope: Scope)
    requires Balanced(s) && key !in s.operations
    requires scope.accountId in s.usage && s.usage[scope.accountId].availableResetCredits == 1
    ensures Balanced(Recorded(s, key, scope))
  {
    var t := Recorded(s, key, scope);
    forall a | a in t.usage
      ensures t.usage[a].availableResetCredits >= 0 && t.usage[a].availableResetCredits + |ResetsOf(t, a)| == 1
    {
      ResetsRecorded(s, key, scope, a);
      assert key !in ResetsOf(s, a);
    }
  }

  lemma SoundRecorded(s: State, key: string, scope: Scope)
    requires Sound(s) && key !in s.operations && Given(scope) !in s.offerOwners
    requires scope.accountId in s.usage && s.usage[scope.accountId].availableResetCredits == 1
    ensures Sound(Recorded(s, key, scope))
  {
    BalancedRecorded(s, key, scope);
    assert Recorded(s, key, scope).usage.Keys == s.usage.Keys;
  }

  // A redemption that throws or is refused leaves everything as it was; one that succeeds with a fresh key
  // spends exactly the one credit of the active account and records it.
  lemma RedeemSpends(s: State, key: Param, supplied: Supplied)
    requires Sound(s)
    ensures var (t, answer) := Redeem(s, key, supplied);
            && (!answer.Redeemed? || key.text in s.operations ==> t == s)
            && (answer.Redeemed? && key.text !in s.operations ==>
                  (supplied.Given? && s.codex == Some(supplied.scope.accountId) && s.codex.value in s.usage
                   && s.usage[s.codex.value].availableResetCredits == 1
                   && supplied !in s.offerOwners
                   && t == Recorded(s, key.text, supplied.scope)))
  {
    var (t, answer) := Redeem(s, key, supplied);
    if answer.Redeemed? && key.text !in s.operations {
      RedeemAnswers(s, key.text, supplied);
      if supplied in s.offerOwners { OwnedOfferIsGone(s, supplied); }
    }
  }

  lemma SoundRedeem(s: State, key: Param, supplied: Supplied)
    requires Sound(s)
    ensures Sound(Redeem(s, key, supplied).0)
  {
    RedeemSpends(s, key, supplied);
    if Redeem(s, key, supplied).1.Redeemed? && key.text !in s.operations {
      SoundRecorded(s, key.text, supplied.scope);
    }
  }

  lemma {:induction false} SoundRun(s: State, steps: seq<Step>)
    requires Sound(s)
    ensures Sound(Run(s, steps))
    decreases |steps|
  {
    if steps != [] {
      match steps[0] {
        case Consume(key, supplied) => SoundRedeem(s, key, supplied);
        case SelectClaude(id) => assert forall a :: ResetsOf(After(s, steps[0]), a) == ResetsOf(s, a);
        case SelectCodex(id) => assert forall a :: ResetsOf(After(s, steps[0]), a) == ResetsOf(s, a);
      }
      SoundRun(After(s, steps[0]), steps[1..]);
    }
  }

  lemma {:induction false} RunKeepsOperations(s: State, steps: seq<Step>)
    ensures forall k :: k in s.operations ==> k in Run(s, steps).operations && Run(s, steps).operations[k] == s.operations[k]
    decreases |steps|
  {
    if steps != [] {
      RunKeepsOperations(After(s, steps[0]), steps[1..]);
    }
  }

  // A redemption that was answered is answered the same, and changes nothing, however many steps later
  // its key and scope are presented again.
  lemma Replay(now: int, before: seq<Step>, key: Param, supplied: Supplied, steps: seq<Step>)
    ensures var s := Run(Initial(now), before);
            var (s', answer) := Redeem(s, key, supplied);
            answer.Redeemed? ==> Redeem(Run(s', steps), key, supplied) == (Run(s', steps), answer)
  {
    RunKeepsOperations(Redeem(Run(Initial(now), before), key, supplied).0, steps);
  }

  // An owned offer is redeemed under its owner's key only.
  lemma OthersRefused(s: State, supplied: Supplied, other: Param)
    requires Sound(s) && supplied in s.offerOwners && other != Text(s.offerOwners[supplied])
    ensures !Redeem(s, other, supplied).1.Redeemed?
  {
    if other.Text? && IsUuid(other.text) && !supplied.NoObject? {
      RedeemAnswers(s, other.text, supplied);
      OwnedOfferIsGone(s, supplied);
    }
  }

  lemma RedeemedIsRecorded(s: State, key: Param, supplied: Supplied)
    requires Redeem(s, key, supplied).1.Redeemed?
    ensures var t := Redeem(s, key, supplied).0;
            key.Text? && key.text in t.operations && t.operations[key.text].scopeKey == supplied
  {
  }

  lemma OthersRefusedLater(s: State, steps: seq<Step>, key: string, supplied: Supplied, other: Param)
    requires Sound(s) && key in s.operations && s.operations[key].scopeKey == supplied && other != Text(key)
    ensures !Redeem(Run(s, steps), other, supplied).1.Redeemed?
  {
    SoundRun(s, steps);
    RunKeepsOperations(s, steps);
    OthersRefused(Run(s, steps), supplied, other);
  }

  // One offer is redeemed under one key: whatever happens after, no other key redeems it.
  lemma OfferRedeemedOnce(now: int, before: seq<Step>, key: Param, supplied: Supplied, steps: seq<Step>, other: Param)
    requires other != key
    ensures var (s', answer) := Redeem(Run(Initial(now), before), key, supplied);
            answer.Redeemed? ==> !Redeem(Run(s', steps), other, supplied).1.Redeemed?
  {
    var s := Run(Initial(now), before);
    if Redeem(s, key, supplied).1.Redeemed? {
      SoundInitially(now);
      SoundRun(Initial(now), before);
      SoundRedeem(s, key, supplied);
      RedeemedIsRecorded(s, key, supplied);
      OthersRefusedLater(Redeem(s, key, supplied).0, steps, key.text, supplied, other);
    }
  }

  lemma OperationsByAccount(s: State)
    requires Sound(s)
    ensures |s.operations| == |ResetsOf(s, PERSONAL)| + |ResetsOf(s, TEAM)|
  {
    var p, t := ResetsOf(s, PERSONAL), ResetsOf(s, TEAM);
    assert s.operations.Keys == p + t by {
      forall k | k in s.operations
        ensures k in p + t
      {
      }
    }
    assert p !! t;
    assert |s.operations| == |s.operations.Keys|;
  }

  lemma SoundBalance(s: State)
    requires Sound(s)
    ensures s.usage.Keys == {PERSONAL, TEAM}
    ensures s.usage[PERSONAL].availableResetCredits + |ResetsOf(s, PERSONAL)| == 1
    ensures s.usage[TEAM].availableResetCredits + |ResetsOf(s, TEAM)| == 1
  {
    assert PERSONAL in s.usage.Keys && TEAM in s.usage.Keys;
  }

  // After any run, the credits left and the operations recorded add up to the two credits of the fixture,
  // and so do those of each account.
  lemma CreditsConserved(now: int, steps: seq<Step>)
    ensures var s := Run(Initial(now), steps);
            && s.usage.Keys == {PERSONAL, TEAM}
            && s.usage[PERSONAL].availableResetCredits + |ResetsOf(s, PERSONAL)| == 1
            && s.usage[TEAM].availableResetCredits + |ResetsOf(s, TEAM)| == 1
            && s.usage[PERSONAL].availableResetCredits + s.usage[TEAM].availableResetCredits + |s.operations| == 2
  {
    SoundInitially(now);
    SoundRun(Initial(now), steps);
    SoundBalance(Run(Initial(now), steps));
    OperationsByAccount(Run(Initial(now), steps));
  }

  // Recorded keys and owned offers are each other's inverse after any run.
  lemma KeysAndOffersInverse(now: int, steps: seq<Step>, key: string, offer: Supplied)
    ensures var s := Run(Initial(now), steps);
            (key in s.operations && s.operations[key].scopeKey == offer) <==> (offer in s.offerOwners && s.offerOwners[offer] == key)
  {
    SoundInitially(now);
    SoundRun(Initial(now), steps);
  }
}
