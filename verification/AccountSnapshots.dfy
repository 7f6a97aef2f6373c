/**
 What a client sees of the mock account state (mobile/scripts/mock-server-account-state.ts): the snapshot
 after any run, said in values, and what a redemption and a selection change in it.
 */
module AccountSnapshots {
  import opened Options
  import opened AccountState

  // ---------- values ----------

  // The limits of an account whose fixture offset is `offset`, before and after its credit is redeemed
  function LimitsOf(now: int, offset: int, spent: bool): Limits {
    var session, weekly := now + 90 * 60 * 1000, now + 3 * 24 * 60 * 60 * 1000;
    if spent then Limits(0, 2, None, Some(Window(0, 300, session)), Some(Window(77, 10080, weekly)), now + offset + 1)
    else Limits(1, 2, Some(now + (5 + offset) * 24 * 60 * 60 * 1000), Some(Window(100, 300, session)), Some(Window(77, 10080, weekly)), now + offset)
  }

  function InactiveLine(now: int, account: string, offset: int, spent: bool): Inactive {
    Inactive(account, LimitsOf(now, offset, spent), if spent then now + offset + 1 else now + offset)
  }

  // The snapshot of a state in which the accounts were redeemed or not
  function SnapshotWith(now: int, claude: Option<string>, codex: Option<string>, personal: bool, team: bool): Snapshot {
    if codex == Some("codex-personal") then
      Snapshot(now, claude, codex, LimitsOf(now, 0, personal), [InactiveLine(now, "codex-team", 1, team)])
    else if codex == Some("codex-team") then
      Snapshot(now, claude, codex, LimitsOf(now, 1, team), [InactiveLine(now, "codex-personal", 0, personal)])
    else
      Snapshot(now, claude, codex, Limits(0, 0, None, None, None, now),
               [InactiveLine(now, "codex-personal", 0, personal), InactiveLine(now, "codex-team", 1, team)])
  }

  // ---------- after any run ----------

  // Some recorded redemption was of this account.
  ghost predicate Spends(s: State, account: string) { ResetsOf(s, account) != {} }

  ghost predicate UsageIs(s: State, now: int, account: string, offset: int) {
    account in s.usage
    && s.usage[account] == if Spends(s, account) then Usage(0, 0, now + offset + 1, now + (5 + offset) * DAY) else Usage(1, 100, now + offset, now + (5 + offset) * DAY)
  }

  ghost predicate Dated(s: State, now: int) {
    Sound(s) && s.startedAt == now && UsageIs(s, now, PERSONAL, 0) && UsageIs(s, now, TEAM, 1)
    && (s.codex.Some? ==> s.codex.value == PERSONAL || s.codex.value == TEAM)
  }

  lemma DatedInitially(now: int)
    ensures Dated(Initial(now), now)
  {
    SoundInitially(now);
    var s := Initial(now);
    assert ResetsOf(s, PERSONAL) == {} && ResetsOf(s, TEAM) == {};
  }

  lemma UsageRecorded(s: State, now: int, key: string, scope: Scope, account: string, offset: int)
    requires Sound(s) && UsageIs(s, now, account, offset) && key !in s.operations && scope.accountId in s.usage
    requires s.usage[scope.accountId].availableResetCredits == 1
    ensures UsageIs(Recorded(s, key, scope), now, account, offset)
    ensures Spends(Recorded(s, key, scope), account) <==> Spends(s, account) || account == scope.accountId
  {
    ResetsRecorded(s, key, scope, account);
    if account == scope.accountId {
      assert key in ResetsOf(Recorded(s, key, scope), account);
    }
  }

  lemma DatedRedeem(s: State, now: int, key: Param, supplied: Supplied)
    requires Dated(s, now)
    ensures Dated(Redeem(s, key, supplied).0, now)
  {
    RedeemSpends(s, key, supplied);
    SoundRedeem(s, key, supplied);
    if Redeem(s, key, supplied).1.Redeemed? && key.text !in s.operations {
      UsageRecorded(s, now, key.text, supplied.scope, PERSONAL, 0);
      UsageRecorded(s, now, key.text, supplied.scope, TEAM, 1);
    }
  }

  lemma DatedSelect(s: State, now: int, step: Step)
    requires Dated(s, now) && !step.Consume?
    ensures Dated(After(s, step), now)
  {
    var t := After(s, step);
    assert forall a :: ResetsOf(t, a) == ResetsOf(s, a);
  }

  lemma {:induction false} DatedRun(s: State, now: int, steps: seq<Step>)
    requires Dated(s, now)
    ensures Dated(Run(s, steps), now)
    decreases |steps|
  {
    if steps != [] {
      match steps[0] {
        case Consume(key, supplied) => DatedRedeem(s, now, key, supplied);
        case _ => DatedSelect(s, now, steps[0]);
      }
      DatedRun(After(s, steps[0]), now, steps[1..]);
    }
  }

  lemma LimitsDated(s: State, now: int, account: string, offset: int)
    requires s.startedAt == now && UsageIs(s, now, account, offset)
    ensures LimitsFor(s.startedAt, s.usage, Some(account)) == LimitsOf(now, offset, Spends(s, account))
  {
  }

  lemma SnapshotDated(s: State, now: int)
    requires Dated(s, now)
    ensures SnapshotOf(s) == SnapshotWith(now, s.claude, s.codex, Spends(s, PERSONAL), Spends(s, TEAM))
  {
    LimitsDated(s, now, PERSONAL, 0);
    LimitsDated(s, now, TEAM, 1);
    var second := CODEX_ACCOUNTS[1..];
    assert second == [Account(TEAM, 2)] && second[1..] == [];
    assert InactiveOf(s, second[1..]) == [];
    assert InactiveOf(s, second) == if s.codex == Some(TEAM) then [] else [InactiveLine(now, TEAM, 1, Spends(s, TEAM))];
    assert InactiveOf(s, CODEX_ACCOUNTS) == (if s.codex == Some(PERSONAL) then [] else [InactiveLine(now, PERSONAL, 0, Spends(s, PERSONAL))]) + InactiveOf(s, second);
  }

  // After any run the snapshot is one of these values, and nothing of it depends on anything but the
  // selections and which accounts were redeemed.
  lemma SnapshotExact(now: int, steps: seq<Step>)
    ensures var s := Run(Initial(now), steps); SnapshotOf(s) == SnapshotWith(now, s.claude, s.codex, Spends(s, PERSONAL), Spends(s, TEAM))
  {
    DatedInitially(now);
    DatedRun(Initial(now), now, steps);
    SnapshotDated(Run(Initial(now), steps), now);
  }

  // ---------- what one step shows ----------

  // A redemption that succeeds with a fresh key shows on the active account: the credit and its expiry are
  // gone, the session use is back to 0, the limits are newer.  Nothing else of the snapshot changes.
  lemma RedeemShows(now: int, steps: seq<Step>, key: Param, supplied: Supplied)
    ensures var s := Run(Initial(now), steps);
            var (t, answer) := Redeem(s, key, supplied);
            var before, after := SnapshotOf(s), SnapshotOf(t);
            answer.Redeemed? && key.text !in s.operations ==>
              && before.codex.Some? && before.limits.availableCount == 1 && before.limits.nextExpiresAt.Some?
              && before.limits.session.Some? && before.limits.session.value.usedPercent == 100
              && after.limits.availableCount == 0 && after.limits.nextExpiresAt.None?
              && after.limits.session == Some(before.limits.session.value.(usedPercent := 0))
              && after.limits.updatedAt == before.limits.updatedAt + 1
              && after.limits.weekly == before.limits.weekly && after.limits.totalEarnedCount == before.limits.totalEarnedCount
              && (after.startedAt, after.claude, after.codex, after.inactive) == (before.startedAt, before.claude, before.codex, before.inactive)
    // Any other answer leaves the snapshot alone.
    ensures var s := Run(Initial(now), steps);
            var (t, answer) := Redeem(s, key, supplied);
            !(answer.Redeemed? && key.text !in s.operations) ==> SnapshotOf(t) == SnapshotOf(s)
  {
    var s := Run(Initial(now), steps);
    DatedInitially(now);
    DatedRun(Initial(now), now, steps);
    RedeemSpends(s, key, supplied);
    var (t, answer) := Redeem(s, key, supplied);
    if answer.Redeemed? && key.text !in s.operations {
      RedeemedShows(s, now, key.text, supplied.scope);
    }
  }

  lemma RedeemedShows(s: State, now: int, key: string, scope: Scope)
    requires Dated(s, now) && key !in s.operations && s.codex == Some(scope.accountId) && scope.accountId in s.usage
    requires s.usage[scope.accountId].availableResetCredits == 1 && Given(scope) !in s.offerOwners
    ensures var personal, team := scope.accountId == PERSONAL || Spends(s, PERSONAL), scope.accountId == TEAM || Spends(s, TEAM);
            && SnapshotOf(s) == SnapshotWith(now, s.claude, s.codex, Spends(s, PERSONAL), Spends(s, TEAM))
            && SnapshotOf(Recorded(s, key, scope)) == SnapshotWith(now, s.claude, s.codex, personal, team)
            && !Spends(s, scope.accountId)
  {
    SnapshotDated(s, now);
    UsageRecorded(s, now, key, scope, PERSONAL, 0);
    UsageRecorded(s, now, key, scope, TEAM, 1);
    SoundRecorded(s, key, scope);
    SnapshotDated(Recorded(s, key, scope), now);
  }

  // A selection shows at once: the snapshot names the account chosen, or none, with its own limits, and lists
  // the others with theirs; an unknown account changes nothing.
  lemma SelectShows(now: int, steps: seq<Step>, id: Param)
    ensures var s := Run(Initial(now), steps);
            var after := SnapshotOf(After(s, SelectCodex(id)));
            var personal, team := Spends(s, PERSONAL), Spends(s, TEAM);
            && (id == Text("codex-personal") ==> after == SnapshotWith(now, s.claude, Some("codex-personal"), personal, team))
            && (id == Text("codex-team") ==> after == SnapshotWith(now, s.claude, Some("codex-team"), personal, team))
            && (id.Null? ==> after == SnapshotWith(now, s.claude, None, personal, team))
            && (id !in {Null, Text("codex-personal"), Text("codex-team")} ==> after == SnapshotOf(s))
    ensures var s := Run(Initial(now), steps);
            var after := SnapshotOf(After(s, SelectClaude(id)));
            && (id.Text? && id.text in {"claude-team", "claude-personal"} ==> after == SnapshotOf(s).(claude := Some(id.text)))
            && (id.Null? ==> after == SnapshotOf(s).(claude := None))
            && (id !in {Null, Text("claude-team"), Text("claude-personal")} ==> after == SnapshotOf(s))
  {
    var s := Run(Initial(now), steps);
    DatedInitially(now);
    DatedRun(Initial(now), now, steps);
    SnapshotDated(s, now);
    SelectedDated(s, now, SelectCodex(id));
    SelectedDated(s, now, SelectClaude(id));
  }

  lemma SelectedDated(s: State, now: int, step: Step)
    requires Dated(s, now) && !step.Consume?
    ensures var t := After(s, step); SnapshotOf(t) == SnapshotWith(now, t.claude, t.codex, Spends(s, PERSONAL), Spends(s, TEAM))
  {
    var t := After(s, step);
    DatedSelect(s, now, step);
    SnapshotDated(t, now);
    assert ResetsOf(t, PERSONAL) == ResetsOf(s, PERSONAL) && ResetsOf(t, TEAM) == ResetsOf(s, TEAM);
  }

  // ---------- what can be redeemed ----------

  predicate IsHexDigit(c: char) { c in "0123456789abcdefABCDEF" }

  predicate AllHex(s: string) { forall i :: 0 <= i < |s| ==> IsHexDigit(s[i]) }

  // Five groups of hexadecimal digits, the third beginning with a version and the fourth with a variant
  ghost predicate Grouped(s: string) {
    exists a, b, c, d, e ::
      && s == a + "-" + b + "-" + c + "-" + d + "-" + e
      && |a| == 8 && |b| == |c| == |d| == 4 && |e| == 12 && AllHex(a) && AllHex(b) && AllHex(c) && AllHex(d) && AllHex(e)
      && c[0] in "12345678" && d[0] in "89abAB"
  }

  lemma CutInFive(s: string)
    requires |s| == 36 && s[8] == s[13] == s[18] == s[23] == '-'
    ensures s == s[..8] + "-" + s[9..13] + "-" + s[14..18] + "-" + s[19..23] + "-" + s[24..]
  {
  }

  lemma HexStretch(s: string, i: nat, j: nat)
    requires IsUuid(s) && i < j <= 36 && !(i <= 8 < j) && !(i <= 13 < j) && !(i <= 18 < j) && !(i <= 23 < j)
    ensures AllHex(s[i..j])
  {
    forall k | 0 <= k < j - i
      ensures IsHexDigit(s[i..j][k])
    {
      var c := s[i + k];
      assert s[i..j][k] == c && IsHex(c);
      HexDigit(c);
    }
  }

  lemma HexDigit(c: char)
    ensures IsHexDigit(c) <==> IsHex(c)
  {
  }

  lemma UuidGroups(s: string) returns (a: string, b: string, c: string, d: string, e: string)
    requires IsUuid(s)
    ensures s == a + "-" + b + "-" + c + "-" + d + "-" + e
    ensures |a| == 8 && |b| == |c| == |d| == 4 && |e| == 12 && AllHex(a) && AllHex(b) && AllHex(c) && AllHex(d) && AllHex(e)
    ensures c[0] in "12345678" && d[0] in "89abAB"
  {
    a, b, c, d, e := s[..8], s[9..13], s[14..18], s[19..23], s[24..];
    CutInFive(s);
    HexStretch(s, 0, 8);
    HexStretch(s, 9, 13);
    HexStretch(s, 14, 18);
    HexStretch(s, 19, 23);
    HexStretch(s, 24, 36);
  }

  lemma GroupsUuid(s: string, a: string, b: string, c: string, d: string, e: string)
    requires s == a + "-" + b + "-" + c + "-" + d + "-" + e
    requires |a| == 8 && |b| == |c| == |d| == 4 && |e| == 12 && AllHex(a) && AllHex(b) && AllHex(c) && AllHex(d) && AllHex(e)
    requires c[0] in "12345678" && d[0] in "89abAB"
    ensures IsUuid(s)
  {
    assert s[..8] == a && s[8] == '-' && s[9..13] == b && s[13] == '-' && s[14..18] == c && s[18] == '-' && s[19..23] == d && s[23] == '-' && s[24..] == e;
    forall k: char
      ensures IsHexDigit(k) <==> IsHex(k)
    {
      HexDigit(k);
    }
    forall i | 0 <= i < 36
      ensures s[i] == if i < 8 then a[i] else if i == 8 then '-' else if i < 13 then b[i - 9] else if i == 13 then '-' else if i < 18 then c[i - 14]
                      else if i == 18 then '-' else if i < 23 then d[i - 19] else if i == 23 then '-' else e[i - 24]
    {
    }
  }

  lemma UuidIff(s: string)
    ensures IsUuid(s) <==> Grouped(s)
  {
    if IsUuid(s) {
      var a, b, c, d, e := UuidGroups(s);
    }
    if Grouped(s) {
      var a, b, c, d, e :|
        && s == a + "-" + b + "-" + c + "-" + d + "-" + e
        && |a| == 8 && |b| == |c| == |d| == 4 && |e| == 12 && AllHex(a) && AllHex(b) && AllHex(c) && AllHex(d) && AllHex(e)
        && c[0] in "12345678" && d[0] in "89abAB";
      GroupsUuid(s, a, b, c, d, e);
    }
  }

  // The scope on offer: that of the active account while its credit is there, if its limits are dated by a safe
  // integer
  function ScopeOf(now: int, codex: Option<string>, personal: bool, team: bool): Option<Scope> {
    if codex == Some("codex-personal") && !personal && 0 <= now <= 9007199254740991 then
      Some(Scope("codex-personal", 1, LimitsOf(now, 0, false)))
    else if codex == Some("codex-team") && !team && 0 <= now + 1 <= 9007199254740991 then
      Some(Scope("codex-team", 2, LimitsOf(now, 1, false)))
    else None
  }

  lemma ScopeDated(s: State, now: int)
    requires Dated(s, now)
    ensures ResetScope(s) == ScopeOf(now, s.codex, Spends(s, PERSONAL), Spends(s, TEAM))
  {
    LimitsDated(s, now, PERSONAL, 0);
    LimitsDated(s, now, TEAM, 1);
  }

  // After any run the scope on offer is one of these values.
  lemma ScopeExact(now: int, steps: seq<Step>)
    ensures var s := Run(Initial(now), steps); ResetScope(s) == ScopeOf(now, s.codex, Spends(s, PERSONAL), Spends(s, TEAM))
  {
    DatedInitially(now);
    DatedRun(Initial(now), now, steps);
    ScopeDated(Run(Initial(now), steps), now);
  }

  // What a redemption answers after any run, by its key, the scope it presents and the scope on offer.
  lemma AnswerExact(now: int, steps: seq<Step>, key: Param, supplied: Supplied)
    ensures var s := Run(Initial(now), steps);
            var onOffer := ScopeOf(now, s.codex, Spends(s, PERSONAL), Spends(s, TEAM));
            Redeem(s, key, supplied).1 ==
              if !(key.Text? && Grouped(key.text)) then Thrown(InvalidKey)
              else if supplied == NoObject then Thrown(MissingScope)
              else if key.text in s.operations then
                (if s.operations[key.text].scopeKey == supplied then Redeemed(Reset, supplied) else Thrown(DifferentScope))
              else if onOffer.Some? && supplied == Given(onOffer.value) then Redeemed(Reset, supplied)
              else OfferChanged(supplied)
  {
    var s := Run(Initial(now), steps);
    DatedInitially(now);
    DatedRun(Initial(now), now, steps);
    ScopeDated(s, now);
    if key.Text? {
      UuidIff(key.text);
      if IsUuid(key.text) && supplied != NoObject {
        RedeemAnswers(s, key.text, supplied);
      }
    }
  }
}
