/**
 The account requests of mobile/scripts/mock-server-account-rpc.ts: replies, subscriptions and the
 snapshots pushed to subscribers.

 `Served` is one request as a function; `AccountServer` handles it with the loop of the source.  The
 theorem is that every subscriber's last view is always the snapshot of the present state.
 */
module AccountRpc {
  import opened Options
  import opened AccountState

  datatype Call =
    | List
    | ChooseClaude(accountId: Param)
    | ChooseCodex(accountId: Param)         // also the form that names a target
    | ConsumeCredit(key: Param, scope: Supplied)
    | Subscribe
    | Unsubscribe(subscriptionId: Param)
    | Unowned                               // a method of another handler

  // `connection` stands for the respond callback the request came with.
  datatype Request = Request(connection: nat, id: string, call: Call)

  datatype Body =
    | Listed(snapshot: Snapshot)
    | ClaudeChosen(id: Option<string>)
    | CodexChosen(id: Option<string>)
    | CreditAnswer(answer: Answer, snapshot: Snapshot)
    | Ready(subscriptionId: string, snapshot: Snapshot)
    | Pushed(snapshot: Snapshot)
    | Unsubscribed
    | Rejected(error: Error)

  datatype Message = Message(connection: nat, requestId: string, body: Body)

  // One entry of the subscriber map
  datatype Subscriber = Subscriber(key: string, requestId: string, connection: nat)

  // `subscribers` lists the map in insertion order; `sent` is everything responded so far.
  datatype Server = Server(accounts: State, subscribers: seq<Subscriber>, sent: seq<Message>)

  function SubscriptionId(requestId: string): string { "accounts-" + requestId }

  // Setting a key of the map keeps its place
  function WithEntry(subs: seq<Subscriber>, sub: Subscriber): seq<Subscriber> {
    if subs == [] then [sub]
    else if subs[0].key == sub.key then [sub] + subs[1..]
    else [subs[0]] + WithEntry(subs[1..], sub)
  }

  function WithoutEntry(subs: seq<Subscriber>, key: string): seq<Subscriber> {
    if subs == [] then []
    else if subs[0].key == key then subs[1..]
    else [subs[0]] + WithoutEntry(subs[1..], key)
  }

  function Push(sub: Subscriber, snapshot: Snapshot): Message { Message(sub.connection, sub.requestId, Pushed(snapshot)) }

  function Pushes(subs: seq<Subscriber>, snapshot: Snapshot): seq<Message> {
    seq(|subs|, i requires 0 <= i < |subs| => Push(subs[i], snapshot))
  }

  function Reply(sv: Server, r: Request, body: Body): Server { sv.(sent := sv.sent + [Message(r.connection, r.id, body)]) }

  function Notified(sv: Server): Server { sv.(sent := sv.sent + Pushes(sv.subscribers, SnapshotOf(sv.accounts))) }

  function Served(sv: Server, r: Request): Server {
    match r.call
    case List => Reply(sv, r, Listed(SnapshotOf(sv.accounts)))
    case ChooseClaude(id) =>
      if !Selectable(SelectClaude(id)) then Reply(sv, r, Rejected(UnknownAccount))
      else
        var s := After(sv.accounts, SelectClaude(id));
        Notified(Reply(sv.(accounts := s), r, ClaudeChosen(s.claude)))
    case ChooseCodex(id) =>
      if !Selectable(SelectCodex(id)) then Reply(sv, r, Rejected(UnknownAccount))
      else
        var s := After(sv.accounts, SelectCodex(id));
        Notified(Reply(sv.(accounts := s), r, CodexChosen(s.codex)))
    case ConsumeCredit(key, scope) =>
      var (s, answer) := Redeem(sv.accounts, key, scope);
      if answer.Thrown? then Reply(sv.(accounts := s), r, Rejected(answer.error))
      else Notified(Reply(sv.(accounts := s), r, CreditAnswer(answer, SnapshotOf(s))))
    case Subscribe =>
      Reply(sv.(subscribers := WithEntry(sv.subscribers, Subscriber(SubscriptionId(r.id), r.id, r.connection))), r,
            Ready(SubscriptionId(r.id), SnapshotOf(sv.accounts)))
    case Unsubscribe(id) =>
      Reply(sv.(subscribers := if id.Text? then WithoutEntry(sv.subscribers, id.text) else sv.subscribers), r, Unsubscribed)
    case Unowned => sv
  }

  function ServedAll(sv: Server, requests: seq<Request>): Server
    decreases |requests|
  {
    if requests == [] then sv else ServedAll(Served(sv, requests[0]), requests[1..])
  }

  // ---------- the handler ----------

  class AccountServer {
    const accounts: Accounts
    var subscribers: seq<Subscriber>
    var sent: seq<Message>

    function View(): Server
      reads this, accounts
    {
      Server(accounts.View(), subscribers, sent)
    }

    constructor (accounts: Accounts)
      ensures this.accounts == accounts && subscribers == [] && sent == []
    {
      this.accounts := accounts;
      subscribers, sent := [], [];
    }

    method Respond(r: Request, body: Body)
      modifies this`sent
      ensures View() == Reply(old(View()), r, body)
    {
      sent := sent + [Message(r.connection, r.id, body)];
    }

    method NotifySubscribers()
      modifies this`sent
      ensures View() == Notified(old(View()))
    {
      for i := 0 to |subscribers|
        invariant subscribers == old(subscribers) && accounts.View() == old(accounts.View())
        invariant sent == old(sent) + Pushes(subscribers, SnapshotOf(accounts.View()))[..i]
      {
        sent := sent + [Push(subscribers[i], SnapshotOf(accounts.View()))];
      }
    }

    method Handle(r: Request) returns (owned: bool)
      modifies this, accounts
      ensures View() == Served(old(View()), r)
      ensures owned <==> !r.call.Unowned?
    {
      owned := true;
      match r.call {
        case List =>
          Respond(r, Listed(SnapshotOf(accounts.View())));
        case ChooseClaude(id) =>
          var error := accounts.SelectClaude(id);
          if error.Some? {
            Respond(r, Rejected(error.value));
          } else {
            Respond(r, ClaudeChosen(accounts.View().claude));
            NotifySubscribers();
          }
        case ChooseCodex(id) =>
          var error := accounts.SelectCodex(id);
          if error.Some? {
            Respond(r, Rejected(error.value));
          } else {
            Respond(r, CodexChosen(accounts.View().codex));
            NotifySubscribers();
          }
        case ConsumeCredit(key, scope) =>
          var answer := accounts.ConsumeResetCredit(key, scope);
          if answer.Thrown? {
            Respond(r, Rejected(answer.error));
          } else {
            Respond(r, CreditAnswer(answer, SnapshotOf(accounts.View())));
            NotifySubscribers();
          }
        case Subscribe =>
          subscribers := WithEntry(subscribers, Subscriber(SubscriptionId(r.id), r.id, r.connection));
          Respond(r, Ready(SubscriptionId(r.id), SnapshotOf(accounts.View())));
        case Unsubscribe(id) =>
          if id.Text? {
            subscribers := WithoutEntry(subscribers, id.text);
          }
          Respond(r, Unsubscribed);
        case Unowned =>
          owned := false;
      }
    }
  }

  // ---------- views ----------

  predicate IsView(m: Message, connection: nat, requestId: string) {
    m.connection == connection && m.requestId == requestId && (m.body.Ready? || m.body.Pushed?)
  }

  // The last snapshot a subscription was sent
  function LastView(sent: seq<Message>, connection: nat, requestId: string): Option<Snapshot> {
    if sent == [] then None
    else if IsView(sent[|sent| - 1], connection, requestId) then Some(sent[|sent| - 1].body.snapshot)
    else LastView(sent[..|sent| - 1], connection, requestId)
  }

  ghost predicate Seen(sent: seq<Message>, sub: Subscriber, snapshot: Snapshot) {
    LastView(sent, sub.connection, sub.requestId) == Some(snapshot)
  }

  // Every entry of the subscriber map last saw the present state.
  ghost predicate Consistent(sv: Server) {
    forall sub :: sub in sv.subscribers ==> Seen(sv.sent, sub, SnapshotOf(sv.accounts))
  }

  lemma SeenAfter(sent: seq<Message>, m: Message, sub: Subscriber, snapshot: Snapshot)
    ensures IsView(m, sub.connection, sub.requestId) && m.body.snapshot == snapshot ==> Seen(sent + [m], sub, snapshot)
    ensures Seen(sent, sub, snapshot) && (IsView(m, sub.connection, sub.requestId) ==> m.body.snapshot == snapshot) ==> Seen(sent + [m], sub, snapshot)
  {
    assert (sent + [m])[..|sent + [m]| - 1] == sent;
  }

  // Pushing the present state to a list of subscribers brings each of them up to date.
  lemma {:induction false} PushesSeen(sent: seq<Message>, subs: seq<Subscriber>, sub: Subscriber, snapshot: Snapshot)
    requires sub in subs || Seen(sent, sub, snapshot)
    ensures Seen(sent + Pushes(subs, snapshot), sub, snapshot)
    decreases |subs|
  {
    if subs == [] {
      assert sent + Pushes(subs, snapshot) == sent;
    } else {
      var last := subs[|subs| - 1];
      var rest := subs[..|subs| - 1];
      var m := Push(last, snapshot);
      assert subs == rest + [last];
      assert sent + Pushes(subs, snapshot) == (sent + Pushes(rest, snapshot)) + [m];
      if sub in rest || Seen(sent, sub, snapshot) {
        PushesSeen(sent, rest, sub, snapshot);
      }
      SeenAfter(sent + Pushes(rest, snapshot), m, sub, snapshot);
    }
  }

  lemma NotifiedConsistent(sv: Server)
    ensures Consistent(Notified(sv))
  {
    forall sub | sub in sv.subscribers
      ensures Seen(Notified(sv).sent, sub, SnapshotOf(sv.accounts))
    {
      PushesSeen(sv.sent, sv.subscribers, sub, SnapshotOf(sv.accounts));
    }
  }

  lemma ReplyConsistent(sv: Server, r: Request, body: Body)
    requires Consistent(sv) && !body.Ready? && !body.Pushed?
    ensures Consistent(Reply(sv, r, body))
  {
    forall sub | sub in sv.subscribers
      ensures Seen(Reply(sv, r, body).sent, sub, SnapshotOf(sv.accounts))
    {
      SeenAfter(sv.sent, Message(r.connection, r.id, body), sub, SnapshotOf(sv.accounts));
    }
  }

  lemma {:induction false} EntryMembers(subs: seq<Subscriber>, sub: Subscriber, key: string)
    ensures forall x :: x in WithEntry(subs, sub) ==> x == sub || x in subs
    ensures forall x :: x in WithoutEntry(subs, key) ==> x in subs
  {
    if subs != [] {
      EntryMembers(subs[1..], sub, key);
    }
  }

  lemma SubscribeConsistent(sv: Server, r: Request)
    requires Consistent(sv) && r.call.Subscribe?
    ensures Consistent(Served(sv, r))
  {
    var snapshot := SnapshotOf(sv.accounts);
    var added := Subscriber(SubscriptionId(r.id), r.id, r.connection);
    EntryMembers(sv.subscribers, added, "");
    forall sub | sub in Served(sv, r).subscribers
      ensures Seen(Served(sv, r).sent, sub, snapshot)
    {
      SeenAfter(sv.sent, Message(r.connection, r.id, Ready(SubscriptionId(r.id), snapshot)), sub, snapshot);
    }
  }

  // Whatever is asked, and however it is answered, every subscriber's view stays the present state:
  // a request that throws has changed nothing, and one that may have changed something notifies everyone.
  lemma ServedConsistent(sv: Server, r: Request)
    requires Consistent(sv)
    ensures Consistent(Served(sv, r))
  {
    var t := Served(sv, r);
    match r.call {
      case List => ReplyConsistent(sv, r, Listed(SnapshotOf(sv.accounts)));
      case Unowned =>
      case Subscribe => SubscribeConsistent(sv, r);
      case Unsubscribe(id) =>
        if id.Text? { EntryMembers(sv.subscribers, Subscriber("", "", 0), id.text); }
        ReplyConsistent(sv.(subscribers := t.subscribers), r, Unsubscribed);
      case ChooseClaude(id) =>
        if Selectable(SelectClaude(id)) { NotifiedConsistent(Reply(sv.(accounts := t.accounts), r, ClaudeChosen(t.accounts.claude))); }
        else { ReplyConsistent(sv, r, Rejected(UnknownAccount)); }
      case ChooseCodex(id) =>
        if Selectable(SelectCodex(id)) { NotifiedConsistent(Reply(sv.(accounts := t.accounts), r, CodexChosen(t.accounts.codex))); }
        else { ReplyConsistent(sv, r, Rejected(UnknownAccount)); }
      case ConsumeCredit(key, scope) =>
        var answer := Redeem(sv.accounts, key, scope).1;
        if answer.Thrown? { ReplyConsistent(sv, r, Rejected(answer.error)); }
        else { NotifiedConsistent(Reply(sv.(accounts := t.accounts), r, CreditAnswer(answer, SnapshotOf(t.accounts)))); }
    }
  }

  lemma {:induction false} ServedAllConsistent(sv: Server, requests: seq<Request>)
    requires Consistent(sv)
    ensures Consistent(ServedAll(sv, requests))
    decreases |requests|
  {
    if requests != [] {
      ServedConsistent(sv, requests[0]);
      ServedAllConsistent(Served(sv, requests[0]), requests[1..]);
    }
  }

  // From the server's start, through any requests on any connections.
  lemma ViewsAreCurrent(now: int, requests: seq<Request>)
    ensures var sv := ServedAll(Server(Initial(now), [], []), requests);
            forall sub :: sub in sv.subscribers ==> LastView(sv.sent, sub.connection, sub.requestId) == Some(SnapshotOf(sv.accounts))
  {
    ServedAllConsistent(Server(Initial(now), [], []), requests);
    var sv := ServedAll(Server(Initial(now), [], []), requests);
    forall sub | sub in sv.subscribers
      ensures LastView(sv.sent, sub.connection, sub.requestId) == Some(SnapshotOf(sv.accounts))
    {
      assert Seen(sv.sent, sub, SnapshotOf(sv.accounts));
    }
  }

  // ---------- replies ----------

  // The reply a request gets, and what becomes of the accounts
  predicate Fitting(call: Call, body: Body, before: State, after: State) {
    match body
    case Listed(snapshot) => call.List? && after == before && snapshot == SnapshotOf(after)
    case ClaudeChosen(id) =>
      && call.ChooseClaude? && call.accountId in {Null, Text("claude-team"), Text("claude-personal")}
      && after == before.(claude := id) && id == if call.accountId.Text? then Some(call.accountId.text) else None
    case CodexChosen(id) =>
      && call.ChooseCodex? && call.accountId in {Null, Text("codex-personal"), Text("codex-team")}
      && after == before.(codex := id) && id == if call.accountId.Text? then Some(call.accountId.text) else None
    case CreditAnswer(answer, snapshot) =>
      call.ConsumeCredit? && !answer.Thrown? && (after, answer) == Redeem(before, call.key, call.scope) && snapshot == SnapshotOf(after)
    case Ready(id, snapshot) => call.Subscribe? && after == before && snapshot == SnapshotOf(after)
    case Unsubscribed => call.Unsubscribe? && after == before
    case Rejected(error) =>
      && after == before
      && (call.ChooseClaude? ==> call.accountId !in {Null, Text("claude-team"), Text("claude-personal")} && error == UnknownAccount)
      && (call.ChooseCodex? ==> call.accountId !in {Null, Text("codex-personal"), Text("codex-team")} && error == UnknownAccount)
      && (call.ConsumeCredit? ==> Redeem(before, call.key, call.scope).1 == Thrown(error))
      && (call.ChooseClaude? || call.ChooseCodex? || call.ConsumeCredit?)
    case Pushed(_) => false
  }

  predicate Announces(body: Body) { body.ClaudeChosen? || body.CodexChosen? || body.CreditAnswer? }

  // Every request of these methods is answered first and once, to the connection and id it came with; the
  // reply says what the state now is, and one that announces a change is followed by one push to each
  // subscriber, in order.  Any other method is left to other handlers.
  lemma Answered(sv: Server, r: Request) returns (body: Body)
    ensures r.call.Unowned? ==> Served(sv, r) == sv
    ensures !r.call.Unowned? ==>
              var t := Served(sv, r);
              && Fitting(r.call, body, sv.accounts, t.accounts)
              && t.sent == sv.sent + [Message(r.connection, r.id, body)]
                           + (if Announces(body) then seq(|sv.subscribers|, i requires 0 <= i < |sv.subscribers| =>
                                                        Message(sv.subscribers[i].connection, sv.subscribers[i].requestId, Pushed(SnapshotOf(t.accounts)))) else [])
              && (body.Ready? ==> exists sub :: sub in t.subscribers && sub.connection == r.connection && sub.requestId == r.id && sub.key == body.subscriptionId)
  {
    var t := Served(sv, r);
    body := if r.call.Unowned? then Unsubscribed else t.sent[|sv.sent|].body;
    match r.call {
      case Subscribe =>
        EntryAdded(sv.subscribers, Subscriber(SubscriptionId(r.id), r.id, r.connection));
      case ConsumeCredit(key, scope) =>
      case _ =>
    }
    assert r.call.Unowned? || |t.sent| > |sv.sent|;
  }

  lemma {:induction false} EntryAdded(subs: seq<Subscriber>, sub: Subscriber)
    ensures sub in WithEntry(subs, sub)
    decreases |subs|
  {
    if subs != [] && subs[0].key != sub.key {
      EntryAdded(subs[1..], sub);
    }
  }

  // ---------- unsubscribing ----------

  // Entries are kept under the id their own subscription was told, one each.
  ghost predicate Keyed(subs: seq<Subscriber>) {
    && (forall i :: 0 <= i < |subs| ==> subs[i].key == SubscriptionId(subs[i].requestId))
    && (forall i, j :: 0 <= i < j < |subs| ==> subs[i].key != subs[j].key)
  }

  ghost predicate Absent(subs: seq<Subscriber>, requestId: string) {
    forall sub :: sub in subs ==> sub.requestId != requestId
  }

  ghost predicate NoPush(sent: seq<Message>, requestId: string) {
    forall m :: m in sent ==> m.requestId == requestId ==> !m.body.Pushed?
  }

  lemma {:induction false} WithEntryKeyed(subs: seq<Subscriber>, sub: Subscriber)
    requires Keyed(subs) && sub.key == SubscriptionId(sub.requestId)
    ensures Keyed(WithEntry(subs, sub))
  {
    if subs != [] && subs[0].key != sub.key {
      WithEntryKeyed(subs[1..], sub);
      EntryMembers(subs[1..], sub, "");
      forall x | x in WithEntry(subs[1..], sub)
        ensures x.key != subs[0].key
      {
      }
    }
  }

  // Unsubscribing under the id a subscription was told removes exactly that subscription.
  lemma {:induction false} WithoutEntryExact(subs: seq<Subscriber>, requestId: string)
    requires Keyed(subs)
    ensures var rest := WithoutEntry(subs, SubscriptionId(requestId));
            Keyed(rest) && Absent(rest, requestId) && forall sub :: sub in rest <==> sub in subs && sub.requestId != requestId
  {
    if subs != [] {
      assert forall x :: x in subs <==> x == subs[0] || x in subs[1..];
      assert SubscriptionId(subs[0].requestId)[9..] == subs[0].requestId && SubscriptionId(requestId)[9..] == requestId;
      if subs[0].key == SubscriptionId(requestId) {
        forall x | x in subs[1..]
          ensures x.requestId != requestId
        {
        }
      } else {
        WithoutEntryExact(subs[1..], requestId);
      }
    }
  }

  lemma {:induction false} WithoutEntryKeyed(subs: seq<Subscriber>, key: string)
    requires Keyed(subs)
    ensures Keyed(WithoutEntry(subs, key))
  {
    if subs != [] && subs[0].key != key {
      WithoutEntryKeyed(subs[1..], key);
      EntryMembers(subs[1..], subs[0], key);
      forall x | x in WithoutEntry(subs[1..], key)
        ensures x.key != subs[0].key
      {
      }
    }
  }

  lemma ServedKeyed(sv: Server, r: Request)
    requires Keyed(sv.subscribers)
    ensures Keyed(Served(sv, r).subscribers)
  {
    match r.call {
      case Subscribe => WithEntryKeyed(sv.subscribers, Subscriber(SubscriptionId(r.id), r.id, r.connection));
      case Unsubscribe(id) => if id.Text? { WithoutEntryKeyed(sv.subscribers, id.text); }
      case _ =>
    }
  }

  // Messages were only added, and the pushes among them went to these subscribers.
  ghost predicate Adds(before: seq<Message>, after: seq<Message>, subs: seq<Subscriber>) {
    before <= after
    && forall m :: m in after[|before|..] && m.body.Pushed? ==> exists sub :: sub in subs && m.requestId == sub.requestId
  }

  lemma NotifiedAdds(sv: Server, r: Request, body: Body)
    requires !body.Pushed?
    ensures Adds(sv.sent, Reply(sv, r, body).sent, sv.subscribers)
    ensures Adds(sv.sent, Notified(Reply(sv, r, body)).sent, sv.subscribers)
  {
    var pushes := Pushes(sv.subscribers, SnapshotOf(sv.accounts));
    var more := [Message(r.connection, r.id, body)] + pushes;
    assert Notified(Reply(sv, r, body)).sent == sv.sent + more;
    forall m | m in more && m.body.Pushed?
      ensures exists sub :: sub in sv.subscribers && m.requestId == sub.requestId
    {
      var i :| 0 <= i < |pushes| && pushes[i] == m;
      assert sv.subscribers[i] in sv.subscribers;
    }
  }

  lemma ServedAdds(sv: Server, r: Request)
    ensures Adds(sv.sent, Served(sv, r).sent, sv.subscribers)
  {
    var s := Served(sv, r).accounts;
    match r.call {
      case ChooseClaude(id) => NotifiedAdds(sv.(accounts := s), r, if Selectable(SelectClaude(id)) then ClaudeChosen(s.claude) else Rejected(UnknownAccount));
      case ChooseCodex(id) => NotifiedAdds(sv.(accounts := s), r, if Selectable(SelectCodex(id)) then CodexChosen(s.codex) else Rejected(UnknownAccount));
      case ConsumeCredit(key, scope) => ConsumedAdds(sv, r);
      case _ =>
    }
  }

  lemma ConsumedAdds(sv: Server, r: Request)
    requires r.call.ConsumeCredit?
    ensures Adds(sv.sent, Served(sv, r).sent, sv.subscribers)
  {
    var (s, answer) := Redeem(sv.accounts, r.call.key, r.call.scope);
    NotifiedAdds(sv.(accounts := s), r, if answer.Thrown? then Rejected(answer.error) else CreditAnswer(answer, SnapshotOf(s)));
  }

  // A subscription that is absent stays absent and is pushed nothing, unless the request subscribes it.
  lemma ServedAppends(sv: Server, r: Request, requestId: string)
    requires Absent(sv.subscribers, requestId) && !(r.call.Subscribe? && r.id == requestId)
    ensures Absent(Served(sv, r).subscribers, requestId)
    ensures sv.sent <= Served(sv, r).sent && NoPush(Served(sv, r).sent[|sv.sent|..], requestId)
  {
    EntryMembers(sv.subscribers, Subscriber(SubscriptionId(r.id), r.id, r.connection),
                 if r.call.Unsubscribe? && r.call.subscriptionId.Text? then r.call.subscriptionId.text else "");
    ServedAdds(sv, r);
  }

  lemma {:induction false} SilentRun(sv: Server, requests: seq<Request>, requestId: string)
    requires Absent(sv.subscribers, requestId)
    requires forall r :: r in requests ==> !(r.call.Subscribe? && r.id == requestId)
    ensures sv.sent <= ServedAll(sv, requests).sent && NoPush(ServedAll(sv, requests).sent[|sv.sent|..], requestId)
    decreases |requests|
  {
    if requests != [] {
      var next := Served(sv, requests[0]);
      ServedAppends(sv, requests[0], requestId);
      SilentRun(next, requests[1..], requestId);
      var all := ServedAll(sv, requests).sent;
      assert all[|sv.sent|..] == next.sent[|sv.sent|..] + all[|next.sent|..];
    }
  }

  // Once unsubscribed, a subscription is pushed nothing until its id subscribes again.
  lemma UnsubscribeSilences(now: int, before: seq<Request>, r: Request, requestId: string, after: seq<Request>)
    requires r.call == Unsubscribe(Text(SubscriptionId(requestId)))
    requires forall q :: q in after ==> !(q.call.Subscribe? && q.id == requestId)
    ensures var sv := Served(ServedAll(Server(Initial(now), [], []), before), r);
            sv.sent <= ServedAll(sv, after).sent && NoPush(ServedAll(sv, after).sent[|sv.sent|..], requestId)
  {
    var start := Server(Initial(now), [], []);
    KeyedRun(start, before);
    WithoutEntryExact(ServedAll(start, before).subscribers, requestId);
    SilentRun(Served(ServedAll(start, before), r), after, requestId);
  }

  lemma {:induction false} KeyedRun(sv: Server, requests: seq<Request>)
    requires Keyed(sv.subscribers)
    ensures Keyed(ServedAll(sv, requests).subscribers)
    decreases |requests|
  {
    if requests != [] {
      ServedKeyed(sv, requests[0]);
      KeyedRun(Served(sv, requests[0]), requests[1..]);
    }
  }
}
