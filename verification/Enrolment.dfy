/** Invites and their redemption (backend/src/auth/invites.rs): the invite table, and redeeming
    as a protocol of three steps over two stores, interleaved with everything else. */
module Enrolment {
  import opened Words
  import opened Wrappers
  import opened UserStore

  /** The stored form of a token. */
  type Token = string

  /** A row: an invite, or text that does not parse as one. */
  datatype Invite =
    | Invite(expiresAt: Option<u64>, usedBy: Option<string>, username: Option<string>)
    | Unparsable

  datatype RedeemError = InvalidInvite | Corrupt | WrongUser | AlreadyTaken | Expired

  // ---- The invite table

  predicate BoundTo(invite: Invite, id: string) {
    invite.Invite? && (invite.username.None? || invite.username.value == id)
  }

  predicate Open(invite: Invite, now: u64) {
    invite.Invite? && (invite.expiresAt.None? || now < invite.expiresAt.value)
  }

  /** The consuming transaction: the table it would commit, or why it refuses. */
  function Consume(rows: map<Token, Invite>, taken: bool, id: string, token: Token, now: u64)
    : Result<map<Token, Invite>, RedeemError>
  {
    if token !in rows then Err(InvalidInvite)
    else if rows[token].Unparsable? then Err(Corrupt)
    else if !BoundTo(rows[token], id) then Err(WrongUser)
    else if rows[token].usedBy.Some? then Err(AlreadyTaken)
    else if !Open(rows[token], now) then Err(Expired)
    else if taken then Err(AlreadyTaken)
    else Ok(rows[token := rows[token].(usedBy := Some(id))])
  }

  class InviteTable {
    var rows: map<Token, Invite>

    /** The new invite can be redeemed exactly by a free id it is meant for, before its deadline; no
        other invite changes. This is what an `Issue` step does to the table. */
    method Create(token: Token, expiresAt: Option<u64>, username: Option<string>)
      modifies this
      ensures forall taken, id, now: u64 :: Consume(rows, taken, id, token, now).Ok? <==>
        !taken && (username == None || username == Some(id)) && (expiresAt.Some? ==> now < expiresAt.value)
      ensures rows - {token} == old(rows) - {token}
      ensures forall w: World :: w.invites == old(rows) && token !in w.issued ==>
        Do(w, Issue(token, expiresAt, username)).invites == rows
    {
      rows := rows[token := Invite(expiresAt, None, username)];
    }

    /** No later redeem finds the token, and it reports whether there was one; no other invite
        changes. This is what a `Withdraw` step does to the table. */
    method Revoke(token: Token) returns (removed: bool)
      modifies this
      ensures removed <==> token in old(rows)
      ensures forall taken, id, now: u64 :: Consume(rows, taken, id, token, now) == Err(InvalidInvite)
      ensures rows - {token} == old(rows) - {token}
      ensures forall w: World :: w.invites == old(rows) ==> Do(w, Withdraw(token)).invites == rows
    {
      removed := token in rows;
      rows := rows - {token};
    }

    /** Scan every row without stopping at a match, then check and mark it used. */
    method ConsumeInvite(taken: bool, id: string, token: Token, now: u64) returns (r: Result<(), RedeemError>)
      modifies this
      ensures match Consume(old(rows), taken, id, token, now)
        case Ok(after) => r.Ok? && rows == after
        case Err(e) => r == Err(e) && rows == old(rows)
    {
      var found: Option<Invite> := None;
      var todo := rows.Keys;
      while todo != {}
        invariant todo <= rows.Keys && rows == old(rows)
        invariant found == if token in rows && token !in todo then Some(rows[token]) else None
        invariant found.Some? ==> found.value.Invite?
        decreases |todo|
      {
        var key :| key in todo;
        if key == token {
          if rows[key].Unparsable? {
            return Err(Corrupt);
          }
          found := Some(rows[key]);
        }
        todo := todo - {key};
      }
      if found.None? {
        return Err(InvalidInvite);
      }
      var record := found.value;
      if record.username.Some? && record.username.value != id {
        return Err(WrongUser);
      }
      if record.usedBy.Some? {
        return Err(AlreadyTaken);
      }
      if record.expiresAt.Some? && now >= record.expiresAt.value {
        return Err(Expired);
      }
      if taken {
        return Err(AlreadyTaken);
      }
      rows := rows[token := record.(usedBy := Some(id))];
      r := Ok(());
    }
  }

  // ---- The protocol

  /** Where a redeeming client stands between its steps. The clock is read before the first
      transaction begins. */
  datatype Phase =
    | Checked(id: string, token: Token, now: u64)
    | Consumed(id: string, token: Token)

  /** What happened, in order: an invite consumed by an id, an account made from it. */
  datatype Event = Spent(token: Token, id: string, at: u64) | Made(id: string, token: Token)

  /** Both stores, the clients under way, every invite ever issued, and the history. */
  datatype World = World(
    invites: map<Token, Invite>, users: Users, clients: map<nat, Phase>, clock: u64,
    issued: map<Token, Invite>, log: seq<Event>)

  datatype Step =
    | Tick(seconds: nat)
    | Issue(token: Token, expiresAt: Option<u64>, username: Option<string>)
    | Withdraw(token: Token)
    | Begin(client: nat, user: string, with: Token)
    | Commit(client: nat)
    | Finish(client: nat, hash: string)
    | Crash(client: nat)
    | UserChange(op: Op)

  /** One atomic step; a step that is not possible changes nothing. Fresh tokens never repeat. */
  function Do(w: World, step: Step): World {
    match step
    case Tick(seconds) => w.(clock := Min(w.clock + seconds, U64_MAX))
    case Issue(token, expiresAt, username) =>
      if token in w.issued then w
      else
        var invite := Invite(expiresAt, None, username);
        w.(invites := w.invites[token := invite], issued := w.issued[token := invite])
    case Withdraw(token) => w.(invites := w.invites - {token})
    case Begin(client, user, with) =>
      if client in w.clients || user in w.users then w
      else w.(clients := w.clients[client := Checked(user, with, w.clock)])
    case Commit(client) =>
      if client !in w.clients || !w.clients[client].Checked? then w
      else DoCommit(w, client, w.clients[client])
    case Finish(client, hash) =>
      if client !in w.clients || !w.clients[client].Consumed? then w
      else DoFinish(w, client, w.clients[client], hash)
    case Crash(client) => w.(clients := w.clients - {client})
    case UserChange(op) => if op.Enrol? then w else w.(users := After(w.users, op))
  }

  function DoCommit(w: World, client: nat, p: Phase): World
    requires p.Checked?
  {
    match Consume(w.invites, p.id in w.users, p.id, p.token, p.now)
    case Err(_) => w.(clients := w.clients - {client})
    case Ok(rows) =>
      w.(invites := rows, clients := w.clients[client := Consumed(p.id, p.token)],
         log := w.log + [Spent(p.token, p.id, p.now)])
  }

  function DoFinish(w: World, client: nat, p: Phase, hash: string): World
    requires p.Consumed?
  {
    var rest := w.(clients := w.clients - {client});
    match Apply(Enrol(p.id, hash), w.users)
    case Err(_) => rest
    case Ok((users, _)) => rest.(users := users, log := w.log + [Made(p.id, p.token)])
  }

  function Run(w: World, steps: seq<Step>): World {
    if steps == [] then w else Do(Run(w, steps[..|steps| - 1]), steps[|steps| - 1])
  }

  /** Any users and any invites to start from; nobody redeeming yet. */
  predicate Start(w: World) {
    w.clients == map[] && w.log == [] && w.issued == w.invites
  }

  // ---- What every step keeps

  /** An invite was spent by the user it is bound to, on a clock reading before its deadline. */
  predicate RightlySpent(issued: map<Token, Invite>, e: Event) {
    e.Spent? ==> e.token in issued && BoundTo(issued[e.token], e.id) && Open(issued[e.token], e.at)
  }

  predicate SpentBy(log: seq<Event>, upTo: nat, token: Token, id: string)
    requires upTo <= |log|
  {
    exists i :: 0 <= i < upTo && log[i].Spent? && log[i].token == token && log[i].id == id
  }

  /** No token is spent twice, and no two accounts are made from one token. */
  predicate OncePerToken(log: seq<Event>) {
    forall i, j :: 0 <= i < j < |log| && log[i].Spent? == log[j].Spent? ==> log[i].token != log[j].token
  }

  /** Every account was made from an invite that the same id spent earlier. */
  predicate MadeFromSpent(log: seq<Event>) {
    forall j :: 0 <= j < |log| && log[j].Made? ==> SpentBy(log, j, log[j].token, log[j].id)
  }

  /** A row still has the deadline and the binding it was issued with. */
  predicate SameTerms(row: Invite, issued: Invite) {
    if row.Unparsable? then issued.Unparsable?
    else issued.Invite? && row.expiresAt == issued.expiresAt && row.username == issued.username
  }

  predicate TableMatches(w: World) {
    && (forall t :: t in w.invites ==> t in w.issued && SameTerms(w.invites[t], w.issued[t]))
    && (forall e :: e in w.log && e.Spent? && e.token in w.invites ==>
          w.invites[e.token].Invite? && w.invites[e.token].usedBy.Some?)
  }

  predicate ClientsMatch(w: World) {
    && (forall c :: c in w.clients && w.clients[c].Consumed? ==>
          && SpentBy(w.log, |w.log|, w.clients[c].token, w.clients[c].id)
          && (forall e :: e in w.log && e.Made? ==> e.token != w.clients[c].token))
    && (forall c, d :: c in w.clients && d in w.clients && c != d ==>
          w.clients[c].Consumed? && w.clients[d].Consumed? ==> w.clients[c].token != w.clients[d].token)
  }

  predicate Safe(w: World) {
    && (forall e :: e in w.log ==> RightlySpent(w.issued, e))
    && OncePerToken(w.log) && MadeFromSpent(w.log)
    && TableMatches(w) && ClientsMatch(w)
  }

  lemma SpentByGrows(log: seq<Event>, e: Event, upTo: nat, token: Token, id: string)
    requires upTo <= |log| && SpentBy(log, upTo, token, id)
    ensures SpentBy(log + [e], upTo, token, id)
  {
    var i :| 0 <= i < upTo && log[i].Spent? && log[i].token == token && log[i].id == id;
    assert (log + [e])[i] == log[i];
  }

  lemma LogGrows(log: seq<Event>, e: Event)
    requires OncePerToken(log) && MadeFromSpent(log)
    requires forall x :: x in log && x.Spent? == e.Spent? ==> x.token != e.token
    requires e.Made? ==> SpentBy(log, |log|, e.token, e.id)
    ensures OncePerToken(log + [e]) && MadeFromSpent(log + [e])
  {
    var log' := log + [e];
    forall j | 0 <= j < |log'| && log'[j].Made? ensures SpentBy(log', j, log'[j].token, log'[j].id) {
      SpentByGrows(log, e, j, log'[j].token, log'[j].id);
    }
  }

  /** A token about to be spent has no client past it and no account made from it. */
  lemma UnspentIsUnclaimed(w: World, token: Token)
    requires Safe(w) && token in w.invites && w.invites[token].Invite? && w.invites[token].usedBy.None?
    ensures forall e :: e in w.log ==> e.token != token
    ensures forall c :: c in w.clients && w.clients[c].Consumed? ==> w.clients[c].token != token
  {
    forall c | c in w.clients && w.clients[c].Consumed? ensures w.clients[c].token != token {
      assert SpentBy(w.log, |w.log|, w.clients[c].token, w.clients[c].id);
    }
    forall e | e in w.log && e.Made? ensures e.token != token {
      var j :| 0 <= j < |w.log| && w.log[j] == e;
      assert SpentBy(w.log, j, e.token, e.id);
    }
  }

  lemma SpendKeepsClients(w: World, client: nat, p: Phase)
    requires Safe(w) && client in w.clients && w.clients[client] == p && p.Checked?
    requires Consume(w.invites, p.id in w.users, p.id, p.token, p.now).Ok?
    ensures ClientsMatch(DoCommit(w, client, p))
  {
    var w', e := DoCommit(w, client, p), Spent(p.token, p.id, p.now);
    UnspentIsUnclaimed(w, p.token);
    assert w'.log == w.log + [e] && w'.log[|w.log|] == e;
    forall c | c in w'.clients && w'.clients[c].Consumed?
      ensures SpentBy(w'.log, |w'.log|, w'.clients[c].token, w'.clients[c].id)
    {
      if c != client {
        SpentByGrows(w.log, e, |w.log|, w.clients[c].token, w.clients[c].id);
      }
    }
  }

  lemma CommitKeepsSafe(w: World, client: nat)
    requires Safe(w) && client in w.clients && w.clients[client].Checked?
    ensures Safe(Do(w, Commit(client)))
  {
    var p := w.clients[client];
    var w' := DoCommit(w, client, p);
    if Consume(w.invites, p.id in w.users, p.id, p.token, p.now).Ok? {
      UnspentIsUnclaimed(w, p.token);
      LogGrows(w.log, Spent(p.token, p.id, p.now));
      SpendKeepsClients(w, client, p);
    }
  }

  lemma FinishKeepsSafe(w: World, client: nat, hash: string)
    requires Safe(w) && client in w.clients && w.clients[client].Consumed?
    ensures Safe(Do(w, Finish(client, hash)))
  {
    var p := w.clients[client];
    var w' := DoFinish(w, client, p, hash);
    if p.id !in w.users {
      var e := Made(p.id, p.token);
      assert w'.log == w.log + [e];
      LogGrows(w.log, e);
      forall c | c in w'.clients && w'.clients[c].Consumed?
        ensures SpentBy(w'.log, |w'.log|, w'.clients[c].token, w'.clients[c].id)
      {
        SpentByGrows(w.log, e, |w.log|, w.clients[c].token, w.clients[c].id);
      }
    }
  }

  lemma IssueKeepsSafe(w: World, token: Token, expiresAt: Option<u64>, username: Option<string>)
    requires Safe(w)
    ensures Safe(Do(w, Issue(token, expiresAt, username)))
  {
    if token !in w.issued {
      forall e | e in w.log && e.Spent? ensures e.token != token {
        assert RightlySpent(w.issued, e);
      }
    }
  }

  lemma ClientStepKeepsSafe(w: World, step: Step)
    requires Safe(w) && (step.Begin? || step.Crash?)
    ensures Safe(Do(w, step))
  {
    var w' := Do(w, step);
    assert w' == w.(clients := w'.clients);
    assert forall c :: c in w'.clients && w'.clients[c].Consumed? ==> c in w.clients && w.clients[c] == w'.clients[c];
  }

  lemma StepKeepsSafe(w: World, step: Step)
    requires Safe(w)
    ensures Safe(Do(w, step))
  {
    match step {
      case Commit(client) =>
        if client in w.clients && w.clients[client].Checked? {
          CommitKeepsSafe(w, client);
        }
      case Finish(client, hash) =>
        if client in w.clients && w.clients[client].Consumed? {
          FinishKeepsSafe(w, client, hash);
        }
      case Issue(token, expiresAt, username) => IssueKeepsSafe(w, token, expiresAt, username);
      case Begin(_, _, _) => ClientStepKeepsSafe(w, step);
      case Crash(_) => ClientStepKeepsSafe(w, step);
      case _ =>
    }
  }

  lemma {:induction false} ReachableIsSafe(w: World, steps: seq<Step>)
    requires Start(w)
    ensures Safe(Run(w, steps))
  {
    if steps != [] {
      ReachableIsSafe(w, steps[..|steps| - 1]);
      StepKeepsSafe(Run(w, steps[..|steps| - 1]), steps[|steps| - 1]);
    }
  }

  /** Over every interleaving and crash of redeems with each other and with issuing, revoking
      and every other change of the user store: a token is spent at most once, only by the user
      it is bound to and on a clock reading before its deadline; and every account made by
      redeeming comes from its own token, spent earlier by that same id. */
  lemma EnrolmentIsSafe(w: World, steps: seq<Step>)
    requires Start(w)
    ensures OncePerToken(Run(w, steps).log)
    ensures forall e :: e in Run(w, steps).log ==> RightlySpent(Run(w, steps).issued, e)
    ensures MadeFromSpent(Run(w, steps).log)
  {
    ReachableIsSafe(w, steps);
  }

  /** No step of redeeming touches an existing account; the one account it may add is a
      password account without admin rights, at version 0. */
  lemma RedeemNeverOverwrites(w: World, step: Step)
    requires !step.UserChange?
    ensures forall id :: id in w.users ==> id in Do(w, step).users && Do(w, step).users[id] == w.users[id]
    ensures forall id :: id in Do(w, step).users && id !in w.users ==>
      && step.Finish? && Do(w, step).users[id] == UserRecord(Some(step.hash), false, None, 0, false, true)
      && Do(w, step).log == w.log + [Made(id, w.clients[step.client].token)]
  {
  }

  /** The consuming transaction succeeds exactly for a readable, unused invite bound to the caller and
      open at the caller's reading of the clock, however late it commits. */
  lemma CommitSpendsIff(w: World, client: nat)
    requires client in w.clients && w.clients[client].Checked?
    ensures var p := w.clients[client];
      Do(w, Commit(client)).log == w.log + [Spent(p.token, p.id, p.now)] <==>
        && p.token in w.invites && BoundTo(w.invites[p.token], p.id) && w.invites[p.token].usedBy.None?
        && Open(w.invites[p.token], p.now) && p.id !in w.users
  {
    var p := w.clients[client];
    assert w.log + [Spent(p.token, p.id, p.now)] != w.log;
  }

  /** So an invite can be spent after its deadline: a client that read the clock in time and then
      waited for the transaction still spends it. */
  lemma SpentAfterDeadline()
    ensures exists w, steps, deadline ::
      && Start(w) && "t" in w.invites && w.invites["t"] == Invite(Some(deadline), None, None)
      && Run(w, steps).clock > deadline && Run(w, steps).log == []
      && |Do(Run(w, steps), Commit(0)).log| == 1
  {
    var rows := map["t" := Invite(Some(10), None, None)];
    var w := World(rows, map[], map[], 0, rows, []);
    var steps := [Begin(0, "u", "t"), Tick(20)];
    assert steps[..1] == [Begin(0, "u", "t")] && steps[..1][..0] == [];
    assert Run(w, steps[..1]) == Do(w, Begin(0, "u", "t"));
    var w' := Run(w, steps);
    assert w' == Do(Do(w, Begin(0, "u", "t")), Tick(20));
    assert w'.clients[0] == Checked("u", "t", 0);
    CommitSpendsIff(w', 0);
    assert w'.clock > 10 && w'.log == [] && |Do(w', Commit(0)).log| == 1;
  }

  // ---- What redeeming does

  /** Why the consuming transaction refuses, in the order of its checks. */
  lemma RefusalSaysWhy(rows: map<Token, Invite>, taken: bool, id: string, token: Token, now: u64)
    ensures var r := Consume(rows, taken, id, token, now);
      && (r == Err(InvalidInvite) <==> token !in rows)
      && (token in rows ==>
            var row := rows[token];
            && (r == Err(Corrupt) <==> row.Unparsable?)
            && (r == Err(WrongUser) <==> row.Invite? && row.username.Some? && row.username.value != id)
            && (r == Err(Expired) <==> BoundTo(row, id) && row.usedBy.None? && !Open(row, now))
            && (r == Err(AlreadyTaken) <==> BoundTo(row, id) && (row.usedBy.Some? || (Open(row, now) && taken)))
            && (r.Ok? ==> r.value == rows[token := Invite(row.expiresAt, Some(id), row.username)]))
  {
  }

  /** The account a redeem makes. */
  function Enrolled(hash: string): UserRecord {
    UserRecord(Some(hash), false, None, 0, false, true)
  }

  /** The last step makes the account and logs it if the id is still free, and otherwise does
      neither; the client is gone either way and nothing else changes. */
  lemma FinishMakesTheAccount(w: World, client: nat, hash: string)
    requires client in w.clients && w.clients[client].Consumed?
    ensures var p, gone := w.clients[client], w.clients - {client};
      Do(w, Finish(client, hash)) ==
        if p.id in w.users then w.(clients := gone)
        else w.(clients := gone, users := w.users[p.id := Enrolled(hash)], log := w.log + [Made(p.id, p.token)])
  {
  }

  /** The id is free, and the token is an unused invite, meant for it and open now. */
  predicate Redeemable(w: World, id: string, token: Token) {
    && id !in w.users && token in w.invites && w.invites[token].Invite? && w.invites[token].usedBy.None?
    && (w.invites[token].username.Some? ==> w.invites[token].username.value == id)
    && (w.invites[token].expiresAt.Some? ==> w.clock < w.invites[token].expiresAt.value)
  }

  lemma RunOfThree(w: World, x: Step, y: Step, z: Step)
    ensures Run(w, [x, y]) == Do(Do(w, x), y) && Run(w, [x, y, z]) == Do(Do(Do(w, x), y), z)
  {
    assert [x, y, z][..2] == [x, y] && [x, y][..1] == [x] && [x][..0] == [];
    assert Run(w, [x]) == Do(w, x);
  }

  lemma BeginReadsTheClock(w: World, client: nat, id: string, token: Token)
    requires client !in w.clients
    ensures Do(w, Begin(client, id, token)) ==
      if id in w.users then w else w.(clients := w.clients[client := Checked(id, token, w.clock)])
  {
  }

  lemma CommitOfChecked(w: World, client: nat, id: string, token: Token)
    requires client !in w.clients && id !in w.users
    ensures var w' := Do(w.(clients := w.clients[client := Checked(id, token, w.clock)]), Commit(client));
      if Redeemable(w, id, token) then
        w' == w.(invites := w.invites[token := w.invites[token].(usedBy := Some(id))],
                 clients := w.clients[client := Consumed(id, token)], log := w.log + [Spent(token, id, w.clock)])
      else w' == w
  {
    RefusalSaysWhy(w.invites, false, id, token, w.clock);
    var clients := w.clients[client := Checked(id, token, w.clock)];
    assert clients - {client} == w.clients;
    assert clients[client := Consumed(id, token)] == w.clients[client := Consumed(id, token)];
  }

  lemma RedeemCommits(w: World, client: nat, id: string, token: Token)
    requires client !in w.clients
    ensures var w' := Run(w, [Begin(client, id, token), Commit(client)]);
      if Redeemable(w, id, token) then
        w' == w.(invites := w.invites[token := w.invites[token].(usedBy := Some(id))],
                 clients := w.clients[client := Consumed(id, token)], log := w.log + [Spent(token, id, w.clock)])
      else w' == w
  {
    RunOfThree(w, Begin(client, id, token), Commit(client), Crash(client));
    BeginReadsTheClock(w, client, id, token);
    if id !in w.users {
      CommitOfChecked(w, client, id, token);
    }
  }

  /** An uninterrupted redeem makes its account, spends its invite and logs both if the invite is
      redeemable, and changes nothing at all if it is not. */
  lemma RedeemSucceedsIff(w: World, client: nat, id: string, token: Token, hash: string)
    requires client !in w.clients
    ensures var w' := Run(w, [Begin(client, id, token), Commit(client), Finish(client, hash)]);
      if Redeemable(w, id, token) then
        w' == w.(invites := w.invites[token := w.invites[token].(usedBy := Some(id))],
                 users := w.users[id := Enrolled(hash)],
                 log := w.log + [Spent(token, id, w.clock)] + [Made(id, token)])
      else w' == w
  {
    RedeemCommits(w, client, id, token);
    RunOfThree(w, Begin(client, id, token), Commit(client), Finish(client, hash));
    var mid := Run(w, [Begin(client, id, token), Commit(client)]);
    if Redeemable(w, id, token) {
      FinishMakesTheAccount(mid, client, hash);
      assert mid.clients - {client} == w.clients;
    }
  }

  /** An account made by other means between the two writes wins: the invite is spent, the account is
      the other one, and none is logged as made from the invite. */
  lemma OtherAccountWins(w: World, client: nat, id: string, token: Token, hash: string, other: Op)
    requires client !in w.clients && Redeemable(w, id, token) && other.Provision? && other.id == id
    ensures var mid := Run(w, [Begin(client, id, token), Commit(client)]);
      var w' := Do(Do(mid, UserChange(other)), Finish(client, hash));
      && id in w'.users && w'.users == After(w.users, other) && w'.users[id].hash == Some(other.hash)
      && w'.log == w.log + [Spent(token, id, w.clock)]
  {
    RedeemCommits(w, client, id, token);
    var mid := Run(w, [Begin(client, id, token), Commit(client)]);
    NewAccountIsAsAsked(w.users, other, id);
    FinishMakesTheAccount(Do(mid, UserChange(other)), client, hash);
  }

  /** The token is spent, nobody is between the two writes with it, and no account came from it. */
  predicate Dead(w: World, token: Token) {
    && (exists e :: e in w.log && e.Spent? && e.token == token)
    && (forall c :: c in w.clients && w.clients[c].Consumed? ==> w.clients[c].token != token)
    && (forall e :: e in w.log && e.Made? ==> e.token != token)
  }

  lemma LogOnlyGrows(w: World, step: Step)
    ensures w.log <= Do(w, step).log
  {
  }

  lemma DeadIsNotSpentAgain(w: World, client: nat, token: Token)
    requires Safe(w) && Dead(w, token) && client in w.clients && w.clients[client].Checked?
    ensures Dead(Do(w, Commit(client)), token)
  {
    var p := w.clients[client];
    var e :| e in w.log && e.Spent? && e.token == token;
    assert token in w.invites ==> w.invites[token].Invite? && w.invites[token].usedBy.Some?;
    RefusalSaysWhy(w.invites, p.id in w.users, p.id, p.token, p.now);
    LogOnlyGrows(w, Commit(client));
    assert e in Do(w, Commit(client)).log;
  }

  lemma DeadStaysDead(w: World, step: Step, token: Token)
    requires Safe(w) && Dead(w, token)
    ensures Dead(Do(w, step), token)
  {
    if step.Commit? && step.client in w.clients && w.clients[step.client].Checked? {
      DeadIsNotSpentAgain(w, step.client, token);
    } else {
      var e :| e in w.log && e.Spent? && e.token == token;
      LogOnlyGrows(w, step);
      assert e in Do(w, step).log;
    }
  }

  /** A redeem that dies between its two writes fails safe: in every run from there, whoever tries, no
      account is ever made from its invite. */
  lemma {:induction false} CrashedRedeemMakesNoAccount(w: World, client: nat, steps: seq<Step>)
    requires Safe(w) && client in w.clients && w.clients[client].Consumed?
    ensures Safe(Run(Do(w, Crash(client)), steps))
    ensures Dead(Run(Do(w, Crash(client)), steps), w.clients[client].token)
  {
    var dead, token := Do(w, Crash(client)), w.clients[client].token;
    if steps == [] {
      StepKeepsSafe(w, Crash(client));
      assert SpentBy(w.log, |w.log|, token, w.clients[client].id);
    } else {
      var n := |steps| - 1;
      CrashedRedeemMakesNoAccount(w, client, steps[..n]);
      StepKeepsSafe(Run(dead, steps[..n]), steps[n]);
      DeadStaysDead(Run(dead, steps[..n]), steps[n], token);
    }
  }
}
