/** Routing and session state of the server host: connections by token, the cookie-phase
    address map, the slot table, reaping, and one session per account. */
module ServerHosts {
  import opened Bits
  import opened Wrappers
  import opened ConnectionTables
  import opened EconomyOutbox

  datatype ConnState = Idle | Handshaking | Authenticating | Connected | Disconnected
  datatype MsgKind = ClientHello | CookieResponse | OtherMsg

  type Address = string
  type Token = nat

  /** An inbound datagram: routed by the token peeked from its header, or in clear.
      `cookieOk` says that the body decodes and the cookie verifies for the sender. */
  datatype Datagram = Empty | Runt | Encrypted(token: Option<Token>) | Clear(kind: MsgKind, cookieOk: bool)

  datatype Entry = Entry(
    state: ConnState, endpoint: Address, handle: ConnHandle, lastSeenMs: nat,
    playerNetId: nat, authed: bool, accountId: int)

  /** What the account store answers to one credential frame. */
  datatype Login = Refused | Accepted(accountId: int, netId: nat)

  /** What a connection makes of a datagram: its next state and the login attempts inside. */
  datatype Effect = Effect(state: ConnState, logins: seq<Login>)

  /** What a reaped peer is reported with; a graceful disconnect is not a timeout. */
  datatype ClosedConn = ClosedConn(endpoint: Address, netId: nat, timedOut: bool)

  // ---- The invariant -------------------------------------------------------

  /** Live connections, active slots and addresses correspond one to one. */
  ghost predicate Routed(conns: map<Token, Entry>, addrs: map<Address, Token>, slots: seq<Slot>,
                         byToken: map<Token, nat>) {
    && conns.Keys == byToken.Keys
    && (forall t :: t in conns ==> conns[t].endpoint in addrs && addrs[conns[t].endpoint] == t)
    && (forall a :: a in addrs ==> addrs[a] in conns && conns[addrs[a]].endpoint == a)
    && (forall t :: t in conns ==>
          && byToken[t] < |slots|
          && conns[t].handle == ConnHandle(byToken[t], slots[byToken[t]].generation, true))
  }

  ghost predicate OneSessionPerAccount(conns: map<Token, Entry>) {
    forall t, u :: t in conns && u in conns && t != u && conns[t].authed && conns[u].authed ==>
      conns[t].accountId != conns[u].accountId
  }

  /** Every live token came from a call counter value already used. */
  ghost predicate TokensIssued(conns: map<Token, Entry>, counter: nat) {
    forall t :: t in conns ==> exists c: nat :: c <= counter && c < U64 && IssuedAt(t, c)
  }

  ghost predicate IssuedAt(t: Token, c: Word64) {
    c > 0 && TokenOf(c) == t
  }

  lemma FreshToken(conns: map<Token, Entry>, counter: nat)
    requires TokensIssued(conns, counter) && counter + 1 < U64
    ensures TokenOf(counter + 1) !in conns
  {
    hide TokenOf;
    var t := TokenOf(counter + 1);
    if t in conns {
      var c: nat :| c <= counter && c < U64 && IssuedAt(t, c);
      TokenInjective(c, counter + 1);
    }
  }

  ghost predicate HostOk(conns: map<Token, Entry>, addrs: map<Address, Token>, slots: seq<Slot>,
                         byToken: map<Token, nat>,
                         counter: nat, stub: bool) {
    Routed(conns, addrs, slots, byToken) && TokensIssued(conns, counter) && (!stub ==> OneSessionPerAccount(conns))
  }

  /** Taking out one connection keeps the correspondence. */
  lemma DropKeepsHost(conns: map<Token, Entry>, addrs: map<Address, Token>, slots: seq<Slot>, byToken: map<Token, nat>,
                      counter: nat, stub: bool, slots': seq<Slot>, t: Token, free: seq<nat>, closes: seq<nat>)
    requires HostOk(conns, addrs, slots, byToken, counter, stub) && TableOk(slots, free, byToken, closes) && t in conns
    requires t in byToken && byToken[t] < |slots|
    requires |slots'| == |slots| && forall i :: 0 <= i < |slots| && i != byToken[t] ==> slots'[i] == slots[i]
    ensures HostOk(conns - {t}, addrs - {conns[t].endpoint}, slots', byToken - {t}, counter, stub)
    ensures conns[t].handle.index == byToken[t]
  {
    hide TokenOf;
    assert forall u :: u in byToken && u != t ==> byToken[u] != byToken[t];
  }

  /** An entry may change its state, activity and account as long as no other
      authenticated connection holds that account. */
  lemma UpdateKeepsHost(conns: map<Token, Entry>, addrs: map<Address, Token>, slots: seq<Slot>,
                        byToken: map<Token, nat>,
                        counter: nat, stub: bool, t: Token, e: Entry)
    requires HostOk(conns, addrs, slots, byToken, counter, stub) && t in conns
    requires e.endpoint == conns[t].endpoint && e.handle == conns[t].handle
    requires (e.authed == conns[t].authed && e.accountId == conns[t].accountId)
      || forall u :: u in conns && u != t && conns[u].authed ==> conns[u].accountId != e.accountId
    ensures HostOk(conns[t := e], addrs, slots, byToken, counter, stub)
  {
    hide TokenOf;
  }

  lemma BindKeepsHost(all: map<Token, Entry>, addrs: map<Address, Token>, slots: seq<Slot>, byToken: map<Token, nat>,
                      counter: nat, stub: bool, t: Token, login: Login)
    requires login.Accepted? && t in all
    requires HostOk(Remaining(all, login.accountId, t), addrs, slots, byToken, counter, stub)
    ensures HostOk(Remaining(all, login.accountId, t)[t := Bound(all[t], login)], addrs, slots, byToken, counter, stub)
  {
    hide HostOk;
    UpdateKeepsHost(Remaining(all, login.accountId, t), addrs, slots, byToken, counter, stub, t, Bound(all[t], login));
  }

  lemma OpenKeepsHost(conns: map<Token, Entry>, addrs: map<Address, Token>, slots: seq<Slot>, byToken: map<Token, nat>,
                      counter: nat, stub: bool, slots': seq<Slot>, t: Token, e: Entry)
    requires HostOk(conns, addrs, slots, byToken, counter, stub)
    requires t !in conns && e.endpoint !in addrs && counter + 1 < U64 && t == TokenOf(counter + 1)
    requires |slots| <= |slots'| && (forall i :: 0 <= i < |slots| ==> slots'[i].generation == slots[i].generation)
    requires e.handle.index < |slots'|
    requires e.handle == ConnHandle(e.handle.index, slots'[e.handle.index].generation, true)
    requires !stub ==> !e.authed
    ensures HostOk(conns[t := e], addrs[e.endpoint := t], slots', byToken[t := e.handle.index], counter + 1, stub)
  {
    hide TokenOf;
    assert IssuedAt(t, counter + 1);
  }

  class ServerHost {
    const devAuthStub: bool
    const table: ConnectionTable
    var conns: map<Token, Entry>
    var addrToToken: map<Address, Token>
    var tokenCounter: Word64
    var nowMs: nat
    var bases: set<nat>  // net ids of the player bases standing in the universe
    ghost var verified: set<Address>  // addresses that once presented a cookie that verified

    ghost predicate Valid()
      reads this, table
    {
      && table.Valid()
      && HostOk(conns, addrToToken, table.slots, table.byToken, tokenCounter, devAuthStub)
      && addrToToken.Keys <= verified
    }

    constructor (devAuthStub: bool)
      ensures Valid() && fresh(table) && conns == map[] && bases == {} && verified == {}
    {
      table := new ConnectionTable();
      this.devAuthStub := devAuthStub;
      conns, addrToToken, tokenCounter, nowMs, bases, verified := map[], map[], 0, 0, {}, {};
    }

    /** Drops one peer and despawns its base. */
    method RemoveConnection(token: Token)
      requires Valid()
      modifies this`conns, this`addrToToken, this`bases, table
      ensures Valid() && conns == old(conns) - {token}
      ensures bases == old(bases) - (if token in old(conns) then {old(conns)[token].playerNetId} else {})
      ensures token in old(conns) ==> !table.Validate(old(conns)[token].handle)
    {
      if token in conns { bases := bases - {conns[token].playerNetId}; }
      DropConnection(token);
    }

    /** Drops one peer: its address association, its slot and its entry. Its base stays. */
    method DropConnection(token: Token)
      requires Valid()
      modifies this`conns, this`addrToToken, table
      ensures Valid() && conns == old(conns) - {token}
      ensures token in old(conns) ==> !table.Validate(old(conns)[token].handle)
    {
      hide TokenOf, TableOk, HostOk;
      if token !in conns {
        assert conns - {token} == conns;
        return;
      }
      SlotOf(token);
      ghost var before := table.slots;
      addrToToken := addrToToken - {conns[token].endpoint};
      table.Close(token);
      DropKeepsHost(conns, old(addrToToken), before, old(table.byToken), tokenCounter, devAuthStub, table.slots, token,
                    old(table.free), old(table.closes));
      conns := conns - {token};
    }

    lemma SlotOf(token: Token)
      requires Valid() && token in conns
      ensures token in table.byToken && table.byToken[token] < |table.slots|
      ensures conns[token].endpoint in addrToToken && addrToToken[conns[token].endpoint] == token
    {
    }

    /** One active session per account: every other authenticated connection of the
        account is closed, and its base handed over, not despawned. */
    method KickExistingSessionForAccount(accountId: int, keepToken: Token)
      requires Valid()
      modifies this`conns, this`addrToToken, table
      ensures Valid()
      ensures conns == Remaining(old(conns), accountId, keepToken)
    {
      hide TokenOf, HostOk, TableOk;
      var todo, kick := conns.Keys, {};
      while todo != {}
        invariant todo <= conns.Keys
        invariant kick == set t | t in conns.Keys && t !in todo && Kicked(conns[t], t, accountId, keepToken)
        decreases |todo|
      {
        var t :| t in todo;
        todo := todo - {t};
        if Kicked(conns[t], t, accountId, keepToken) { kick := kick + {t}; }
      }
      while kick != {}
        invariant Valid() && conns.Keys <= old(conns).Keys
        invariant forall t :: t in conns ==> conns[t] == old(conns)[t]
        invariant forall t :: t in old(conns) ==>
          (t in conns && t !in kick <==> !Kicked(old(conns)[t], t, accountId, keepToken))
        invariant kick <= conns.Keys
        decreases |kick|
      {
        var t :| t in kick;
        kick := kick - {t};
        DropConnection(t);
      }
    }

    /** A login result for the connection `token`. */
    method OnAuthMessage(token: Token, login: Login)
      requires Valid() && token in conns
      modifies this`conns, this`addrToToken, this`bases, table
      ensures Valid() && bases == old(bases) + BasesOf([login])
      ensures login.Refused? ==> conns == old(conns)
      ensures login.Accepted? ==>
        conns == Remaining(old(conns), login.accountId, token)[token := Bound(old(conns)[token], login)]
    {
      hide TokenOf, HostOk, TableOk, Remaining, Bound, Kicked;
      if login.Accepted? {
        ghost var before := conns;
        var bound := Bound(conns[token], login);
        KickExistingSessionForAccount(login.accountId, token);
        BindKeepsHost(before, addrToToken, table.slots, table.byToken, tokenCounter, devAuthStub, token, login);
        conns := conns[token := bound];
        bases := bases + {login.netId};
      }
    }

    /** The login frames of one datagram, in order. */
    method OnAuthMessages(token: Token, logins: seq<Login>)
      requires Valid() && token in conns
      modifies this`conns, this`addrToToken, this`bases, table
      ensures bases == old(bases) + BasesOf(logins)
      ensures Valid() && token in conns && conns[token] == AfterLogins(old(conns)[token], logins)
      ensures conns.Keys <= old(conns).Keys && OthersKeptOrKicked(old(conns), conns, token, logins)
    {
      hide TokenOf, HostOk, TableOk, Bound, TookAccount;
      NoneTaken();
      for i := 0 to |logins|
        invariant bases == old(bases) + BasesOf(logins[..i])
        invariant Valid() && token in conns && conns[token] == AfterLogins(old(conns)[token], logins[..i])
        invariant conns.Keys <= old(conns).Keys && OthersKeptOrKicked(old(conns), conns, token, logins[..i])
      {
        assert logins[..i + 1][..i] == logins[..i];
        assert BasesOf(logins[..i + 1]) == BasesOf(logins[..i]) + BasesOf([logins[i]]);
        OneMoreTaken(logins, i);
        OnAuthMessage(token, logins[i]);
      }
      assert logins[..|logins|] == logins;
    }

    method DispatchToConnection(token: Token, dg: Datagram, effect: Effect)
      requires Valid() && token in conns
      modifies this`conns, this`addrToToken, this`bases, table
      ensures bases == old(bases) + BasesOf(LoginsTaken(old(conns)[token], dg, effect))
      ensures Valid() && token in conns && conns[token] == Dispatched(old(conns)[token], dg, effect)
      ensures conns.Keys <= old(conns).Keys
      ensures OthersKeptOrKicked(old(conns), conns, token, LoginsTaken(old(conns)[token], dg, effect))
    {
      hide TokenOf, HostOk, TableOk, AfterLogins, TookAccount;
      NoneTaken();
      // A repeated cookie response: our answer was lost, it is sent again and nothing changes.
      if !RepeatedCookie(conns[token], dg) {
        UpdateKeepsHost(conns, addrToToken, table.slots, table.byToken, tokenCounter, devAuthStub,
                        token, conns[token].(state := effect.state));
        conns := conns[token := conns[token].(state := effect.state)];
        OnAuthMessages(token, effect.logins);
      }
    }

    /** Hands a datagram to the connection it was routed to, and reaps it if it is gone. */
    method Deliver(token: Token, dg: Datagram, effect: Effect)
      requires Valid() && token in conns
      modifies this`conns, this`addrToToken, this`bases, table
      ensures Valid()
      ensures var e := Dispatched(old(conns)[token].(lastSeenMs := nowMs), dg, effect);
        var spawned := old(bases) + BasesOf(LoginsTaken(old(conns)[token], dg, effect));
        if e.state == Disconnected then token !in conns && bases == spawned - {e.playerNetId}
        else token in conns && conns[token] == e && bases == spawned
      ensures conns.Keys <= old(conns).Keys
      ensures OthersKeptOrKicked(old(conns), conns, token, LoginsTaken(old(conns)[token], dg, effect))
    {
      hide TokenOf, HostOk, TableOk, Dispatched, TookAccount, LoginsTaken;
      SameLogins(conns[token], dg, effect, nowMs);
      UpdateKeepsHost(conns, addrToToken, table.slots, table.byToken, tokenCounter, devAuthStub,
                      token, conns[token].(lastSeenMs := nowMs));
      conns := conns[token := conns[token].(lastSeenMs := nowMs)];
      DispatchToConnection(token, dg, effect);
      if conns[token].state == Disconnected { RemoveConnection(token); }
    }

    /** Routes one datagram: by token when encrypted, by address in clear; a verified
        cookie from an unknown address opens a connection under a fresh token. */
    method OnDatagram(from: Address, dg: Datagram, effect: Effect, spawnedNetId: nat)
      requires Valid() && tokenCounter + 1 < U64
      modifies this, table
      ensures Valid() && nowMs == old(nowMs)
      ensures verified == old(verified) + (if dg == Clear(CookieResponse, true) then {from} else {})
      // What no connection is there for, and no verified cookie comes with, changes nothing.
      ensures dg.Clear? && from !in old(addrToToken) && dg != Clear(CookieResponse, true) ==> Unchanged()
      ensures dg.Encrypted? && (dg.token.None? || dg.token.value !in old(conns)) ==> Unchanged()
      ensures dg in {Empty, Runt} ==> Unchanged()
      ensures var target := Target(old(conns), old(addrToToken), from, dg);
        && (target.Some? ==>
              && conns.Keys <= old(conns).Keys && tokenCounter == old(tokenCounter)
              && target.value in old(conns)
              && OthersKeptOrKicked(old(conns), conns, target.value, LoginsTaken(old(conns)[target.value], dg, effect))
              && var e := Dispatched(old(conns)[target.value].(lastSeenMs := nowMs), dg, effect);
                 var spawned := old(bases) + BasesOf(LoginsTaken(old(conns)[target.value], dg, effect));
                 if e.state == Disconnected then target.value !in conns && bases == spawned - {e.playerNetId}
                 else target.value in conns && conns[target.value] == e && bases == spawned)
      ensures dg == Clear(CookieResponse, true) && from !in old(addrToToken) ==>
        && tokenCounter == old(tokenCounter) + 1
        && TokenOf(tokenCounter) !in old(conns) && conns.Keys == old(conns).Keys + {TokenOf(tokenCounter)}
        && (forall t :: t in old(conns) ==> conns[t] == old(conns)[t])
        && bases == old(bases) + (if devAuthStub then {spawnedNetId} else {})
        && var e := conns[TokenOf(tokenCounter)];
           e == Entry(effect.state, from, e.handle, nowMs, if devAuthStub then spawnedNetId else 0, devAuthStub, 0)
    {
      hide TokenOf, HostOk, TableOk, Dispatched, OthersKeptOrKicked;
      if dg == Clear(CookieResponse, true) { verified := verified + {from}; }
      match dg
      case Encrypted(Some(token)) =>
        if token in conns { Deliver(token, dg, effect); }
      case Clear(kind, cookieOk) =>
        if from in addrToToken {
          AddressKnown(from);
          Deliver(addrToToken[from], dg, effect);
          return;
        }
        if kind == CookieResponse && cookieOk { OpenConnection(from, effect.state, spawnedNetId); }
      case _ =>
    }

    /** No connection, address, token or base came or went. */
    twostate predicate Unchanged()
      reads this
    {
      && conns == old(conns) && addrToToken == old(addrToToken)
      && tokenCounter == old(tokenCounter) && bases == old(bases)
    }

    /** The dev stub binds a base before any login. */
    function StubNetId(spawnedNetId: nat): nat {
      if devAuthStub then spawnedNetId else 0
    }

    /** The cookie was valid: allocate the connection, its slot and its address association.
        `spawnedNetId` is the base the universe spawns, which it does under the dev stub only. */
    method OpenConnection(from: Address, state: ConnState, spawnedNetId: nat)
      requires Valid() && tokenCounter + 1 < U64 && from !in addrToToken && from in verified
      modifies this`conns, this`addrToToken, this`tokenCounter, this`bases, table
      ensures bases == old(bases) + (if devAuthStub then {spawnedNetId} else {})
      ensures Valid() && tokenCounter == old(tokenCounter) + 1
      ensures TokenOf(tokenCounter) !in old(conns)
      ensures conns.Keys == old(conns).Keys + {TokenOf(tokenCounter)}
      ensures forall t :: t in old(conns) ==> conns[t] == old(conns)[t]
      ensures var e := conns[TokenOf(tokenCounter)];
        e == Entry(state, from, e.handle, nowMs, StubNetId(spawnedNetId), devAuthStub, 0)
    {
      hide TokenOf, HostOk, TableOk;
      KeysAgree();
      FreshToken(conns, tokenCounter);
      tokenCounter := tokenCounter + 1;
      var token := TokenOf(tokenCounter);
      var handle := table.Open(token);
      if devAuthStub { bases := bases + {spawnedNetId}; }
      var entry := Entry(state, from, handle, nowMs, StubNetId(spawnedNetId), devAuthStub, 0);
      OpenKeepsHost(conns, addrToToken, old(table.slots), old(table.byToken), old(tokenCounter), devAuthStub,
                    table.slots, token, entry);
      conns := conns[token := entry];
      addrToToken := addrToToken[from := token];
    }

    lemma KeysAgree()
      requires Valid()
      ensures conns.Keys == table.byToken.Keys && TokensIssued(conns, tokenCounter)
    {
      hide TokenOf;
    }

    /** Reaps exactly the connections that disconnected or were silent for longer than the
        timeout, despawns their bases and reports them. */
    method PruneStale(timeoutMs: nat) returns (closed: map<Token, ClosedConn>)
      requires Valid()
      modifies this`conns, this`addrToToken, this`bases, table
      ensures Valid()
      ensures closed == ClosedConns(old(conns), nowMs, timeoutMs)
      ensures conns == old(conns) - closed.Keys
      ensures bases == old(bases) - NetIds(closed)
    {
      hide TokenOf, HostOk, TableOk;
      var todo := conns.Keys;
      closed := map[];
      while todo != {}
        invariant todo <= conns.Keys
        invariant closed == map t | t in conns && t !in todo && Stale(conns[t], nowMs, timeoutMs) :: Closed(conns[t])
        decreases |todo|
      {
        var t :| t in todo;
        todo := todo - {t};
        if Stale(conns[t], nowMs, timeoutMs) { closed := closed[t := Closed(conns[t])]; }
      }
      RemoveAll(closed.Keys);
    }

    method RemoveAll(tokens: set<Token>)
      requires Valid() && tokens <= conns.Keys
      modifies this`conns, this`addrToToken, this`bases, table
      ensures Valid() && conns == old(conns) - tokens
      ensures bases == old(bases) - set t | t in tokens :: old(conns)[t].playerNetId
    {
      hide TokenOf, HostOk, TableOk;
      var todo := tokens;
      while todo != {}
        invariant Valid() && todo <= tokens && conns == old(conns) - (tokens - todo)
        invariant bases == old(bases) - set t | t in tokens - todo :: old(conns)[t].playerNetId
        decreases |todo|
      {
        var t :| t in todo;
        RemoveConnection(t);
        todo := todo - {t};
        assert tokens - todo == (tokens - (todo + {t})) + {t};
      }
      assert tokens - {} == tokens;
    }

    lemma AddressKnown(a: Address)
      requires Valid() && a in addrToToken
      ensures addrToToken[a] in conns
    {
    }

    /** What the invariant says in every reachable state. */
    lemma RoutingInvariant(t: Token, u: Token)
      requires Valid() && t in conns && u in conns
      ensures conns[t].endpoint == conns[u].endpoint ==> t == u
      ensures conns[t].handle.index == conns[u].handle.index ==> t == u
      ensures table.Validate(conns[t].handle) && table.slots[conns[t].handle.index].token == t
      ensures table.Find(t) == Some(conns[t].handle) && addrToToken[conns[t].endpoint] == t
      ensures !devAuthStub && t != u && conns[t].authed && conns[u].authed ==> conns[t].accountId != conns[u].accountId
      ensures conns[t].endpoint in verified
      // Its token reaches it from any address, and its address reaches it in clear.
      ensures forall from :: Target(conns, addrToToken, from, Encrypted(Some(t))) == Some(t)
      ensures forall k, ok :: Target(conns, addrToToken, conns[t].endpoint, Clear(k, ok)) == Some(t)
    {
    }
  }

  predicate Kicked(e: Entry, t: Token, accountId: int, keepToken: Token) {
    t != keepToken && e.authed && e.accountId == accountId
  }

  /** The connections left once the account's other sessions are closed. */
  ghost function Remaining(conns: map<Token, Entry>, accountId: int, keepToken: Token): map<Token, Entry> {
    map t | t in conns && !Kicked(conns[t], t, accountId, keepToken) :: conns[t]
  }

  ghost function ClosedConns(conns: map<Token, Entry>, now: nat, timeoutMs: nat): map<Token, ClosedConn> {
    map t | t in conns && Stale(conns[t], now, timeoutMs) :: Closed(conns[t])
  }

  ghost function NetIds(closed: map<Token, ClosedConn>): set<nat> {
    set t | t in closed :: closed[t].netId
  }

  function Closed(e: Entry): ClosedConn {
    ClosedConn(e.endpoint, e.playerNetId, e.state != Disconnected)
  }

  /** The bases that successful logins bind. */
  ghost function BasesOf(logins: seq<Login>): set<nat> {
    set l | l in logins && l.Accepted? :: l.netId
  }

  /** A repeated cookie response: our answer was lost. */
  predicate RepeatedCookie(e: Entry, dg: Datagram) {
    e.state != Connected && dg.Clear? && dg.kind == CookieResponse
  }

  lemma SameLogins(e: Entry, dg: Datagram, effect: Effect, now: nat)
    ensures LoginsTaken(e.(lastSeenMs := now), dg, effect) == LoginsTaken(e, dg, effect)
  {
  }

  /** The logins that a datagram brings to the entry it reaches. */
  ghost function LoginsTaken(e: Entry, dg: Datagram, effect: Effect): seq<Login> {
    if RepeatedCookie(e, dg) then [] else effect.logins
  }

  /** Auth succeeded: the entry is bound to the account, and only an authenticating
      connection moves to Connected. */
  function Bound(e: Entry, login: Login): Entry
    requires login.Accepted?
  {
    e.(playerNetId := login.netId, authed := true, accountId := login.accountId,
       state := if e.state == Authenticating then Connected else e.state)
  }

  /** A connection's entry after its login frames. */
  ghost function AfterLogins(e: Entry, logins: seq<Login>): Entry {
    if logins == [] then e
    else
      var before, last := AfterLogins(e, logins[..|logins| - 1]), logins[|logins| - 1];
      if last.Accepted? then Bound(before, last) else before
  }

  /** What a datagram makes of the entry it reaches: a repeated cookie response only
      triggers a resend, anything else takes the connection's own next state. */
  ghost function Dispatched(e: Entry, dg: Datagram, effect: Effect): Entry {
    if RepeatedCookie(e, dg) then e
    else AfterLogins(e.(state := effect.state), effect.logins)
  }

  predicate Stale(e: Entry, now: nat, timeoutMs: nat) {
    e.state == Disconnected || (timeoutMs != 0 && now >= e.lastSeenMs && now - e.lastSeenMs > timeoutMs)
  }

  /** The connection a datagram is routed to. */
  ghost function Target(conns: map<Token, Entry>, addrs: map<Address, Token>, from: Address,
                        dg: Datagram): Option<Token> {
    match dg
    case Encrypted(Some(token)) => if token in conns then Some(token) else None
    case Clear(_, _) => if from in addrs then Some(addrs[from]) else None
    case _ => None
  }

  ghost predicate TookAccount(logins: seq<Login>, accountId: int) {
    exists i :: 0 <= i < |logins| && logins[i].Accepted? && logins[i].accountId == accountId
  }

  lemma NoneTaken()
    ensures forall a :: !TookAccount([], a)
  {
  }

  lemma OneMoreTaken(logins: seq<Login>, i: nat)
    requires i < |logins|
    ensures forall a :: TookAccount(logins[..i + 1], a) <==>
      TookAccount(logins[..i], a) || (logins[i].Accepted? && logins[i].accountId == a)
  {
    forall a ensures TookAccount(logins[..i + 1], a) <==>
        TookAccount(logins[..i], a) || (logins[i].Accepted? && logins[i].accountId == a)
    {
      if TookAccount(logins[..i], a) {
        var j :| 0 <= j < i && logins[..i][j].Accepted? && logins[..i][j].accountId == a;
        assert logins[..i + 1][j] == logins[j];
      }
      if logins[i].Accepted? && logins[i].accountId == a { assert logins[..i + 1][i] == logins[i]; }
      if TookAccount(logins[..i + 1], a) {
        var j :| 0 <= j < i + 1 && logins[..i + 1][j].Accepted? && logins[..i + 1][j].accountId == a;
        assert j < i ==> logins[..i][j] == logins[j];
      }
    }
  }

  /** Of the other connections, exactly the sessions whose account one of these logins took
      are gone; the rest are untouched. */
  ghost predicate OthersKeptOrKicked(before: map<Token, Entry>, after: map<Token, Entry>, token: Token,
                                     logins: seq<Login>) {
    forall t :: t in before && t != token ==>
      && (t in after <==> !(before[t].authed && TookAccount(logins, before[t].accountId)))
      && (t in after ==> after[t] == before[t])
  }

  // ---- What the entry functions promise -----------------------------------------

  /** A peer is reaped exactly if it disconnected or, with a timeout set, was last heard
      from longer ago than that. */
  lemma StaleExactly(e: Entry, now: nat, timeoutMs: nat)
    ensures e.state == Disconnected ==> Stale(e, now, timeoutMs)
    ensures e.state != Disconnected && now <= e.lastSeenMs + timeoutMs ==> !Stale(e, now, timeoutMs)
    ensures e.state != Disconnected && timeoutMs == 0 ==> !Stale(e, now, timeoutMs)
    ensures timeoutMs > 0 && now > e.lastSeenMs + timeoutMs ==> Stale(e, now, timeoutMs)
  {
  }

  /** A peer heard from now is not reaped now, unless that datagram disconnected it, and
      its address and slot stay its own. */
  lemma HeardFromStays(e: Entry, dg: Datagram, effect: Effect, now: nat, timeoutMs: nat)
    ensures var t := Dispatched(e.(lastSeenMs := now), dg, effect);
      && t.endpoint == e.endpoint && t.handle == e.handle && t.lastSeenMs == now
      && (t.state != Disconnected ==> !Stale(t, now, timeoutMs))
  {
    LoginsKeepPlace(e.(lastSeenMs := now, state := effect.state), effect.logins);
  }

  lemma {:induction false} LoginsKeepPlace(e: Entry, logins: seq<Login>)
    ensures var t := AfterLogins(e, logins);
      t.endpoint == e.endpoint && t.handle == e.handle && t.lastSeenMs == e.lastSeenMs
  {
    if logins != [] { LoginsKeepPlace(e, logins[..|logins| - 1]); }
  }

  /** After a datagram's logins the entry belongs to the last one that succeeded, and an
      authenticating connection is connected; without one it is what it was. */
  lemma {:induction false} LastLoginWins(e: Entry, logins: seq<Login>, i: int)
    requires -1 <= i < |logins| && (i >= 0 ==> logins[i].Accepted?)
    requires forall j :: i < j < |logins| ==> logins[j].Refused?
    ensures i == -1 ==> AfterLogins(e, logins) == e
    ensures i >= 0 ==>
      var t := AfterLogins(e, logins);
      && t.authed && t.accountId == logins[i].accountId && t.playerNetId == logins[i].netId
      && t.state == if e.state == Authenticating then Connected else e.state
  {
    var n := |logins| - 1;
    if i < n {
      LastLoginWins(e, logins[..n], i);
    } else if i >= 0 {
      LoginsKeepState(e, logins[..n]);
    }
  }

  lemma {:induction false} LoginsKeepState(e: Entry, logins: seq<Login>)
    ensures AfterLogins(e, logins).state in {e.state, if e.state == Authenticating then Connected else e.state}
  {
    if logins != [] { LoginsKeepState(e, logins[..|logins| - 1]); }
  }

  /** One session per account: of the others, exactly the account's authenticated ones go. */
  lemma KickedExactly(conns: map<Token, Entry>, accountId: int, keepToken: Token, t: Token)
    requires t in conns
    ensures t in Remaining(conns, accountId, keepToken) <==>
      t == keepToken || !conns[t].authed || conns[t].accountId != accountId
    ensures t in Remaining(conns, accountId, keepToken) ==> Remaining(conns, accountId, keepToken)[t] == conns[t]
  {
  }

  /** A reaped peer is reported under its address and base, as timed out unless it said goodbye. */
  lemma ReapedIsReported(conns: map<Token, Entry>, now: nat, timeoutMs: nat, t: Token)
    requires t in conns
    ensures t in ClosedConns(conns, now, timeoutMs) <==> Stale(conns[t], now, timeoutMs)
    ensures var closed := ClosedConns(conns, now, timeoutMs);
      t in closed ==> closed[t] == ClosedConn(conns[t].endpoint, conns[t].playerNetId, conns[t].state != Disconnected)
  {
  }

  /** Until it is connected, a connection takes a cookie response for a repeat and stays as
      it is, logins and all; anything else advances it. */
  lemma RepeatedCookieExactly(e: Entry, dg: Datagram, effect: Effect)
    ensures dg.Clear? && dg.kind == CookieResponse && e.state != Connected ==>
      Dispatched(e, dg, effect) == e && LoginsTaken(e, dg, effect) == []
    ensures !(dg.Clear? && dg.kind == CookieResponse) || e.state == Connected ==>
      Dispatched(e, dg, effect) == AfterLogins(e.(state := effect.state), effect.logins)
      && LoginsTaken(e, dg, effect) == effect.logins
  {
  }
}
