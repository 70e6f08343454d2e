/** The connection handshake: cookie phase, key agreement and clock sync, as the client,
    the server connection and the host run it. Cryptography is symbolic: any functions
    will do, as long as key agreement is symmetric. */
module Handshake {
  import opened Wrappers
  import PacketCodec

  type Private = nat
  type Public = nat
  type Secret = nat
  type Key = nat
  type Token = nat

  /** The private part of a key pair that was never generated. */
  const NO_KEY_PAIR: Private := 0

  datatype Crypto = Crypto(
    publicOf: Private -> Public,
    agree: (Private, Public) -> Option<Secret>,
    derive: (Secret, nat) -> Option<(Key, Key)>,     // (client to server, server to client) for an epoch
    sign: (Private, Public) -> Option<nat>,
    verify: (Public, Public, nat) -> bool,
    makeCookie: nat,
    cookieOk: nat -> bool)

  ghost predicate Symmetric(c: Crypto) {
    forall a, b :: c.agree(a, c.publicOf(b)) == c.agree(b, c.publicOf(a))
  }

  datatype Msg =
    | ClientHello(protocolId: nat)
    | VersionReject
    | Cookie(cookie: nat)
    | CookieResponse(echoed: nat, clientPub: Public)
    | HandshakeResponse(serverPub: Public, signature: nat, token: Token, epoch: nat)
    | ClockSyncRequest
    | ClockSyncResponse
    | Garbled(kind: Kind)  // a message of this kind whose body does not decode

  datatype Kind = HelloKind | CookieKind | CookieResponseKind | ResponseKind | SyncRequestKind | SyncResponseKind

  datatype Output = Nothing | Send(msg: Msg) | Fail

  datatype ConnState = Idle | Handshaking | Authenticating | Connected | Disconnected

  datatype Channel = Channel(token: Token, sendKey: Key, recvKey: Key, epoch: nat)

  // ---- Client --------------------------------------------------------------

  datatype ClientHs = ClientHs(
    cookieHandled: bool, ephemeral: Private, haveKeys: bool, keyC2S: Key, keyS2C: Key, token: Token, epoch: nat,
    complete: bool)

  const NewClientHs: ClientHs := ClientHs(false, NO_KEY_PAIR, false, 0, 0, 0, 0, false)

  /** A message at the client; `generated` is the key pair it would make if it made one. */
  ghost function ClientHandles(c: Crypto, pinned: Public, s: ClientHs, m: Msg, generated: Private): (ClientHs, Output) {
    match m
    case VersionReject => (s, Fail)
    case Cookie(k) =>
      var t := if s.cookieHandled then s else s.(cookieHandled := true, ephemeral := generated);
      (t, Send(CookieResponse(k, c.publicOf(t.ephemeral))))
    case HandshakeResponse(pub, sig, token, epoch) =>
      if s.haveKeys then (s, Send(ClockSyncRequest))
      else if !c.verify(pinned, pub, sig) then (s, Fail)
      else (
        match c.agree(s.ephemeral, pub)
        case None => (s, Fail)
        case Some(secret) =>
          var t := s.(token := token, epoch := epoch);
          match c.derive(secret, epoch)
          case None => (t, Fail)
          case Some((c2s, s2c)) => (t.(haveKeys := true, keyC2S := c2s, keyS2C := s2c), Send(ClockSyncRequest)))
    case ClockSyncResponse => (s.(complete := true), Nothing)
    case Garbled(CookieKind) => (s, Fail)
    case Garbled(ResponseKind) => (s, if s.haveKeys then Send(ClockSyncRequest) else Fail)
    case Garbled(SyncResponseKind) => (s, Fail)
    case _ => (s, Nothing)
  }

  class HandshakeClient {
    const crypto: Crypto
    const pinned: Public
    var cookieHandled: bool
    var ephemeral: Private
    var haveKeys: bool
    var keyC2S: Key
    var keyS2C: Key
    var token: Token
    var epoch: nat
    var complete: bool

    ghost function State(): ClientHs
      reads this
    {
      ClientHs(cookieHandled, ephemeral, haveKeys, keyC2S, keyS2C, token, epoch, complete)
    }

    constructor (crypto: Crypto, pinned: Public)
      ensures this.crypto == crypto && this.pinned == pinned
      ensures State() == NewClientHs
    {
      this.crypto, this.pinned := crypto, pinned;
      cookieHandled, ephemeral, haveKeys, keyC2S, keyS2C, token, epoch, complete :=
        false, NO_KEY_PAIR, false, 0, 0, 0, 0, false;
    }

    method OnMessage(m: Msg, generated: Private) returns (out: Output)
      modifies this
      ensures (State(), out) == ClientHandles(crypto, pinned, old(State()), m, generated)
    {
      match m
      case VersionReject => out := Fail;
      case Cookie(_) => out := OnCookie(m, generated);
      case Garbled(CookieKind) => out := OnCookie(m, generated);
      case HandshakeResponse(_, _, _, _) => out := OnHandshakeResponse(m);
      case Garbled(ResponseKind) => out := OnHandshakeResponse(m);
      case ClockSyncResponse =>
        complete := true;
        out := Nothing;
      case Garbled(SyncResponseKind) => out := Fail;
      case _ => out := Nothing;
    }

    method OnCookie(m: Msg, generated: Private) returns (out: Output)
      requires m.Cookie? || m == Garbled(CookieKind)
      modifies this
      ensures (State(), out) == ClientHandles(crypto, pinned, old(State()), m, generated)
    {
      if m.Garbled? { return Fail; }
      if !cookieHandled { cookieHandled, ephemeral := true, generated; }
      out := Send(CookieResponse(m.cookie, crypto.publicOf(ephemeral)));
    }

    method OnHandshakeResponse(m: Msg) returns (out: Output)
      requires m.HandshakeResponse? || m == Garbled(ResponseKind)
      modifies this
      ensures forall g :: (State(), out) == ClientHandles(crypto, pinned, old(State()), m, g)
    {
      if haveKeys { return Send(ClockSyncRequest); }
      if m.Garbled? { return Fail; }
      if !crypto.verify(pinned, m.serverPub, m.signature) { return Fail; }
      var secret := crypto.agree(ephemeral, m.serverPub);
      if secret.None? { return Fail; }
      token, epoch := m.token, m.epoch;
      var keys := crypto.derive(secret.value, epoch);
      if keys.None? { return Fail; }
      keyC2S, keyS2C, haveKeys := keys.value.0, keys.value.1, true;
      out := Send(ClockSyncRequest);
    }
  }

  datatype ClientState = ClientState(hs: ClientHs, channel: Option<Channel>, state: ConnState, last: Option<Msg>)

  ghost function ClientReceives(c: Crypto, pinned: Public, s: ClientState, m: Msg,
                                generated: Private): (ClientState, Option<Msg>) {
    var (hs, out) := ClientHandles(c, pinned, s.hs, m, generated);
    if out.Fail? then (s.(hs := hs, state := Disconnected), None)
    else
      var t := if out.Send? then s.(hs := hs, last := Some(out.msg)) else s.(hs := hs);
      (if hs.complete && hs.haveKeys && s.channel.None?
       then t.(channel := Some(Channel(hs.token, hs.keyC2S, hs.keyS2C, hs.epoch)), state := Authenticating) else t,
       if out.Send? then Some(out.msg) else None)
  }

  class ClientConnection {
    const client: HandshakeClient
    var channel: Option<Channel>
    var state: ConnState
    var last: Option<Msg>
    ghost var posted: set<Msg>  // all that was sent in clear

    ghost function State(): ClientState
      reads this, client
    {
      ClientState(client.State(), channel, state, last)
    }

    ghost predicate Valid()
      reads this
    {
      last.Some? ==> last.value in posted
    }

    /** Starts a session: one handshake client for its whole life. */
    constructor (crypto: Crypto, pinned: Public)
      ensures Valid() && posted == {ClientHello(PacketCodec.PROTOCOL_ID)}
      ensures fresh(client) && client.crypto == crypto && client.pinned == pinned
      ensures State() == ClientState(NewClientHs, None, Handshaking, Some(ClientHello(PacketCodec.PROTOCOL_ID)))
    {
      var hs := new HandshakeClient(crypto, pinned);
      client, channel, state, last := hs, None, Handshaking, Some(ClientHello(PacketCodec.PROTOCOL_ID));
      posted := {ClientHello(PacketCodec.PROTOCOL_ID)};
    }

    method OnDatagram(m: Msg, generated: Private) returns (reply: Option<Msg>)
      requires Valid()
      modifies this, client
      ensures Valid() && posted == Posted(old(posted), reply)
      ensures (State(), reply) == ClientReceives(client.crypto, client.pinned, old(State()), m, generated)
    {
      var out := client.OnMessage(m, generated);
      reply := None;
      if out.Fail? {
        state := Disconnected;
        return;
      }
      if out.Send? {
        last := Some(out.msg);
        reply := last;
        posted := posted + {out.msg};
      }
      if client.complete && client.haveKeys && channel.None? {
        channel := Some(Channel(client.token, client.keyC2S, client.keyS2C, client.epoch));
        state := Authenticating;
      }
    }

    /** Sends again only what was sent before. */
    method ResendPending() returns (again: Option<Msg>)
      requires Valid()
      ensures Posted(posted, again) == posted
      ensures again == ToResend(State().state, State().last)
    {
      again := if state == Handshaking then last else None;
    }
  }

  /** While handshaking, the last message is sent again as it was. */
  ghost function ToResend(state: ConnState, last: Option<Msg>): Option<Msg> {
    if state == Handshaking then last else None
  }

  // ---- Server connection ---------------------------------------------------

  datatype ServerHs = ServerHs(ephemeral: Private, haveKeys: bool, keyC2S: Key, keyS2C: Key, epoch: nat, complete: bool)
  datatype ServerState = ServerState(token: Token, hs: ServerHs, channel: Option<Channel>, state: ConnState,
                                     last: Option<Msg>)

  const NewServerHs: ServerHs := ServerHs(NO_KEY_PAIR, false, 0, 0, 0, false)

  ghost function ServerBegins(c: Crypto, staticPriv: Private, token: Token, m: Msg, generated: Private)
    : (ServerState, Option<Msg>)
  {
    if !m.CookieResponse? then (ServerState(token, NewServerHs, None, Disconnected, None), None)
    else ServerAgrees(c, staticPriv, token, m.clientPub, generated)
  }

  ghost function ServerAgrees(c: Crypto, staticPriv: Private, token: Token, clientPub: Public, generated: Private)
    : (ServerState, Option<Msg>)
  {
    var hs := ServerHs(generated, false, 0, 0, 0, false);
    var failed := (ServerState(token, hs, None, Disconnected, None), None);
    match c.agree(generated, clientPub)
    case None => failed
    case Some(secret) => (
      match c.sign(staticPriv, c.publicOf(generated))
      case None => failed
      case Some(sig) => (
        match c.derive(secret, 0)
        case None => failed
        case Some((c2s, s2c)) =>
          var m := HandshakeResponse(c.publicOf(generated), sig, token, 0);
          var done := hs.(haveKeys := true, keyC2S := c2s, keyS2C := s2c);
          (ServerState(token, done, None, Handshaking, Some(m)), Some(m))))
  }

  ghost function ServerReceives(s: ServerState, m: Msg): (ServerState, Option<Msg>) {
    if m.ClockSyncRequest? then
      var t := s.(hs := s.hs.(complete := true));
      (if s.hs.haveKeys && s.channel.None?
       then t.(channel := Some(Channel(s.token, s.hs.keyS2C, s.hs.keyC2S, s.hs.epoch)), state := Authenticating) else t,
       Some(ClockSyncResponse))
    else if m == Garbled(SyncRequestKind) then (s.(state := Disconnected), None)
    else (s, None)
  }

  class ServerConnection {
    const crypto: Crypto
    const staticPriv: Private
    const token: Token
    var ephemeral: Private
    var haveKeys: bool
    var keyC2S: Key
    var keyS2C: Key
    var epoch: nat
    var complete: bool
    var channel: Option<Channel>
    var state: ConnState
    var last: Option<Msg>
    ghost var posted: set<Msg>  // all that was sent in clear

    ghost predicate Valid()
      reads this
    {
      last.Some? ==> last.value in posted
    }

    ghost function State(): ServerState
      reads this
    {
      ServerState(token, ServerHs(ephemeral, haveKeys, keyC2S, keyS2C, epoch, complete), channel, state, last)
    }

    constructor (crypto: Crypto, staticPriv: Private, token: Token)
      ensures this.crypto == crypto && this.staticPriv == staticPriv && Valid() && posted == {}
      ensures State() == ServerState(token, NewServerHs, None, Idle, None)
    {
      this.crypto, this.staticPriv, this.token := crypto, staticPriv, token;
      ephemeral, haveKeys, keyC2S, keyS2C, epoch, complete := NO_KEY_PAIR, false, 0, 0, 0, false;
      channel, state, last, posted := None, Idle, None, {};
    }

    /** Called once, right after construction, with a response whose cookie verified. */
    method BeginFromCookieResponse(m: Msg, generated: Private) returns (reply: Option<Msg>)
      requires State() == ServerState(token, NewServerHs, None, Idle, None)
      modifies this
      ensures Valid() && posted == Posted(old(posted), reply)
      ensures (State(), reply) == ServerBegins(crypto, staticPriv, token, m, generated)
    {
      reply := None;
      if !m.CookieResponse? {
        state := Disconnected;
        return;
      }
      ephemeral := generated;
      var secret := crypto.agree(ephemeral, m.clientPub);
      if secret.None? {
        state := Disconnected;
        return;
      }
      var sig := crypto.sign(staticPriv, crypto.publicOf(ephemeral));
      if sig.None? {
        state := Disconnected;
        return;
      }
      var keys := crypto.derive(secret.value, epoch);
      if keys.None? {
        state := Disconnected;
        return;
      }
      keyC2S, keyS2C, haveKeys := keys.value.0, keys.value.1, true;
      last := Some(HandshakeResponse(crypto.publicOf(ephemeral), sig.value, token, epoch));
      reply := last;
      posted := posted + {last.value};
      state := Handshaking;
    }

    /** Sends again only what was sent before. */
    method ResendHandshake() returns (again: Option<Msg>)
      requires Valid()
      ensures Posted(posted, again) == posted
      ensures again == ToResend(State().state, State().last)
    {
      again := if state == Handshaking then last else None;
    }

    method OnDatagram(m: Msg) returns (reply: Option<Msg>)
      requires Valid()
      modifies this
      ensures Valid() && posted == Posted(old(posted), reply)
      ensures (State(), reply) == ServerReceives(old(State()), m)
    {
      reply := None;
      if m.ClockSyncRequest? {
        complete := true;
        reply := Some(ClockSyncResponse);
        posted := posted + {ClockSyncResponse};
        if complete && haveKeys && channel.None? {
          channel := Some(Channel(token, keyS2C, keyC2S, epoch));
          state := Authenticating;
        }
      } else if m == Garbled(SyncRequestKind) {
        state := Disconnected;
      }
    }
  }

  // ---- One client, one host, one network -----------------------------------

  datatype Setup = Setup(crypto: Crypto, staticPriv: Private, pinned: Public)

  /** `ever` holds every connection the host ever opened for this client's address, under
      its token; `live` is the one datagrams are routed to now. Nothing sent is taken off
      the network, so any message may be lost, duplicated or reordered. */
  datatype System = System(
    client: ClientState, ever: map<Token, ServerState>, live: Option<Token>, toServer: set<Msg>, toClient: set<Msg>,
    shown: Public,               // the ephemeral in the response the client accepted
    peers: map<Token, Public>)   // the ephemeral in the cookie response each connection answered

  datatype Event =
    | ClientGets(m: Msg, generated: Private)
    | ClientResends
    | ClientMarks(state: ConnState)  // encrypted traffic moves the client's state
    | HostGets(m: Msg, generated: Private, token: Token)
    | HostDrops                      // the host reaps the live connection
    | HostMarks(state: ConnState)    // encrypted traffic moves the live connection's state

  ghost function Init(): System {
    System(ClientState(NewClientHs, None, Handshaking, Some(ClientHello(PacketCodec.PROTOCOL_ID))),
           map[], None, {ClientHello(PacketCodec.PROTOCOL_ID)}, {}, 0, map[])
  }

  /** The network delivers what was sent, perhaps damaged so that it no longer decodes. */
  ghost predicate Enabled(s: System, e: Event) {
    match e
    case ClientGets(m, _) => m in s.toClient || m.Garbled?
    case HostGets(m, _, token) => (m in s.toServer || m.Garbled?) && token !in s.ever
    case _ => true
  }

  ghost function Posted(msgs: set<Msg>, m: Option<Msg>): set<Msg> {
    if m.Some? then msgs + {m.value} else msgs
  }

  /** A clear datagram at the host, as ServerHost routes it. */
  ghost function HostReceives(u: Setup, s: System, m: Msg, generated: Private, token: Token): System {
    if RoutedToLive(s) then
      var conn := s.ever[s.live.value];
      if conn.state != Connected && (m.CookieResponse? || m == Garbled(CookieResponseKind)) then
        s.(toClient := Posted(s.toClient, ToResend(conn.state, conn.last)),
           live := if conn.state == Disconnected then None else s.live)
      else
        var (conn', reply) := ServerReceives(conn, m);
        s.(ever := s.ever[s.live.value := conn'], toClient := Posted(s.toClient, reply),
           live := if conn'.state == Disconnected then None else s.live)
    else
      match m
      case ClientHello(id) =>
        var answer := if id == PacketCodec.PROTOCOL_ID then Cookie(u.crypto.makeCookie) else VersionReject;
        s.(toClient := s.toClient + {answer})
      case CookieResponse(k, pub) =>
        if !u.crypto.cookieOk(k) then s
        else
          var (conn, reply) := ServerBegins(u.crypto, u.staticPriv, token, m, generated);
          s.(ever := s.ever[token := conn], live := Some(token), toClient := Posted(s.toClient, reply),
             peers := s.peers[token := pub])
      case _ => s
  }

  ghost function Step(u: Setup, s: System, e: Event): System {
    match e
    case ClientGets(m, generated) =>
      var (client, reply) := ClientReceives(u.crypto, u.pinned, s.client, m, generated);
      s.(client := client, toServer := Posted(s.toServer, reply),
         shown := if m.HandshakeResponse? && client.hs.haveKeys && !s.client.hs.haveKeys then m.serverPub else s.shown)
    case ClientResends =>
      s.(toServer := Posted(s.toServer, ToResend(s.client.state, s.client.last)))
    case ClientMarks(state) => s.(client := s.client.(state := state))
    case HostGets(m, generated, token) => HostReceives(u, s, m, generated, token)
    case HostDrops => s.(live := None)
    case HostMarks(state) =>
      if RoutedToLive(s)
      then s.(ever := s.ever[s.live.value := s.ever[s.live.value].(state := state)]) else s
  }

  ghost function Run(u: Setup, es: seq<Event>): System {
    if es == [] then Init() else Step(u, Run(u, es[..|es| - 1]), es[|es| - 1])
  }

  ghost predicate Legal(u: Setup, es: seq<Event>) {
    es == [] || (Legal(u, es[..|es| - 1]) && Enabled(Run(u, es[..|es| - 1]), es[|es| - 1]))
  }

  // ---- The invariant -------------------------------------------------------

  /** What these two ephemerals agree on for an epoch. */
  ghost predicate KeysFrom(c: Crypto, mine: Private, theirs: Public, epoch: nat, c2s: Key, s2c: Key) {
    c.agree(mine, theirs).Some? && c.derive(c.agree(mine, theirs).value, epoch) == Some((c2s, s2c))
  }

  ghost predicate ServerInv(c: Crypto, client: ClientHs, t: Token, conn: ServerState, toClient: set<Msg>) {
    && conn.token == t
    && (conn.hs.haveKeys ==>
          && client.cookieHandled
          && KeysFrom(c, conn.hs.ephemeral, c.publicOf(client.ephemeral), conn.hs.epoch,
                      conn.hs.keyC2S, conn.hs.keyS2C))
    && (conn.channel.Some? ==>
          conn.hs.haveKeys && conn.channel == Some(Channel(t, conn.hs.keyS2C, conn.hs.keyC2S, conn.hs.epoch)))
    && (conn.last.Some? ==> conn.last.value in toClient)
  }

  /** A response in flight names a connection that holds keys, and shows its ephemeral. */
  ghost predicate ResponseInv(c: Crypto, ever: map<Token, ServerState>, m: Msg) {
    m.HandshakeResponse? ==>
      m.token in ever && ever[m.token].hs.haveKeys &&
      m.serverPub == c.publicOf(ever[m.token].hs.ephemeral) && m.epoch == ever[m.token].hs.epoch
  }

  /** A client with keys shares them with the connection its token names. */
  ghost predicate ClientKeysOk(c: Crypto, hs: ClientHs, ever: map<Token, ServerState>) {
    hs.haveKeys ==>
      && hs.cookieHandled && hs.token in ever && ever[hs.token].hs.haveKeys && hs.epoch == ever[hs.token].hs.epoch
      && KeysFrom(c, hs.ephemeral, c.publicOf(ever[hs.token].hs.ephemeral), hs.epoch, hs.keyC2S, hs.keyS2C)
  }

  ghost predicate ClientInv(c: Crypto, client: ClientState, ever: map<Token, ServerState>, toServer: set<Msg>) {
    && ClientKeysOk(c, client.hs, ever)
    && (client.channel.Some? ==>
          && client.hs.haveKeys
          && client.channel == Some(Channel(client.hs.token, client.hs.keyC2S, client.hs.keyS2C, client.hs.epoch)))
    && (client.last.Some? ==> client.last.value in toServer)
  }

  ghost predicate Inv(c: Crypto, s: System) {
    && ClientInv(c, s.client, s.ever, s.toServer)
    && (forall t :: t in s.ever ==> ServerInv(c, s.client.hs, t, s.ever[t], s.toClient))
    && (forall m :: m in s.toClient ==> ResponseInv(c, s.ever, m))
    && (forall m :: m in s.toServer && m.CookieResponse? ==>
          s.client.hs.cookieHandled && m.clientPub == c.publicOf(s.client.hs.ephemeral))
  }

  lemma ClientStepKeepsInv(u: Setup, s: System, m: Msg, generated: Private)
    requires Inv(u.crypto, s) && (m in s.toClient || m.Garbled?)
    ensures Inv(u.crypto, Step(u, s, ClientGets(m, generated)))
  {
    ClientAnswers(u, s, m, generated);
    ClientKeepsServers(u, s, m, generated);
  }

  lemma ClientKeepsServers(u: Setup, s: System, m: Msg, generated: Private)
    requires Inv(u.crypto, s)
    ensures var hs := ClientReceives(u.crypto, u.pinned, s.client, m, generated).0.hs;
      forall t :: t in s.ever ==> ServerInv(u.crypto, hs, t, s.ever[t], s.toClient)
  {
    var hs := ClientReceives(u.crypto, u.pinned, s.client, m, generated).0.hs;
    if s.client.hs.cookieHandled { StepKeepsEphemeral(u, s, ClientGets(m, generated)); }
    forall t | t in s.ever ensures ServerInv(u.crypto, hs, t, s.ever[t], s.toClient) {
      assert ServerInv(u.crypto, s.client.hs, t, s.ever[t], s.toClient);
    }
  }

  lemma ClientAnswers(u: Setup, s: System, m: Msg, generated: Private)
    requires Inv(u.crypto, s) && (m in s.toClient || m.Garbled?)
    ensures var (client, reply) := ClientReceives(u.crypto, u.pinned, s.client, m, generated);
      && ClientInv(u.crypto, client, s.ever, Posted(s.toServer, reply))
      && forall r :: r in Posted(s.toServer, reply) && r.CookieResponse? ==>
           client.hs.cookieHandled && r.clientPub == u.crypto.publicOf(client.hs.ephemeral)
  {
    ClientHandlesWell(u, s, m, generated);
    hide ClientHandles, ClientKeysOk;
  }

  lemma ClientHandlesWell(u: Setup, s: System, m: Msg, generated: Private)
    requires Inv(u.crypto, s) && (m in s.toClient || m.Garbled?)
    ensures var hs, (now, out) := s.client.hs, ClientHandles(u.crypto, u.pinned, s.client.hs, m, generated);
      && ClientKeysOk(u.crypto, now, s.ever)
      && (hs.haveKeys ==> now.haveKeys && now.(complete := true) == hs.(complete := true))
      && (hs.cookieHandled ==> now.cookieHandled && now.ephemeral == hs.ephemeral)
      && (out.Send? && out.msg.CookieResponse? ==>
            now.cookieHandled && out.msg.clientPub == u.crypto.publicOf(now.ephemeral))
  {
    assert ResponseInv(u.crypto, s.ever, m);
    if m.HandshakeResponse? && m.token in s.ever {
      assert ServerInv(u.crypto, s.client.hs, m.token, s.ever[m.token], s.toClient);
    }
    hide ServerInv, ClientInv;
    assert ClientKeysOk(u.crypto, s.client.hs, s.ever);
  }

  ghost predicate RoutedToLive(s: System) {
    s.live.Some? && s.live.value in s.ever
  }

  lemma LiveStepKeepsInv(u: Setup, s: System, m: Msg, generated: Private, token: Token)
    requires Inv(u.crypto, s) && RoutedToLive(s)
    ensures Inv(u.crypto, HostReceives(u, s, m, generated, token))
  {
    hide Inv;
    var k := s.live.value;
    if s.ever[k].state != Connected && (m.CookieResponse? || m == Garbled(CookieResponseKind)) {
      HostResendRepeats(u, s, m, generated, token);
      LiveLeft(u, s, HostReceives(u, s, m, generated, token).live);
    } else {
      var conn, reply := ServerReceives(s.ever[k], m).0, ServerReceives(s.ever[k], m).1;
      AnsweredKeepsInv(u, s, m, conn, reply);
      LiveLeft(u, s.(ever := s.ever[k := conn], toClient := Posted(s.toClient, reply)),
               HostReceives(u, s, m, generated, token).live);
    }
  }

  /** The invariant does not speak of which connection is live. */
  lemma LiveLeft(u: Setup, s: System, live: Option<Token>)
    requires Inv(u.crypto, s)
    ensures Inv(u.crypto, s.(live := live))
  {
    hide ServerInv, ResponseInv, ClientInv;
  }

  /** The live connection answers; its keys and its pending response stay. */
  lemma AnsweredKeepsInv(u: Setup, s: System, m: Msg, conn: ServerState, reply: Option<Msg>)
    requires Inv(u.crypto, s) && RoutedToLive(s) && ServerReceives(s.ever[s.live.value], m) == (conn, reply)
    ensures Inv(u.crypto, s.(ever := s.ever[s.live.value := conn], toClient := Posted(s.toClient, reply)))
  {
    var k, ever, toClient := s.live.value, s.ever[s.live.value := conn], Posted(s.toClient, reply);
    ServerAnswers(s.ever[k], m);
    hide ServerReceives;
    assert ServerInv(u.crypto, s.client.hs, k, s.ever[k], s.toClient);
    forall t | t in ever ensures ServerInv(u.crypto, s.client.hs, t, ever[t], toClient) {
      assert ServerInv(u.crypto, s.client.hs, t, s.ever[t], s.toClient);
    }
    hide ServerInv;
    forall r | r in toClient ensures ResponseInv(u.crypto, ever, r) {
      assert r in s.toClient ==> ResponseInv(u.crypto, s.ever, r);
    }
  }

  lemma ServerAnswers(conn: ServerState, m: Msg)
    ensures var (conn', reply) := ServerReceives(conn, m);
      && conn'.token == conn.token && conn'.last == conn.last
      && conn'.hs == conn.hs.(complete := conn'.hs.complete)
      && (conn'.channel == conn.channel ||
            (conn.hs.haveKeys
              && conn'.channel == Some(Channel(conn.token, conn.hs.keyS2C, conn.hs.keyC2S, conn.hs.epoch))))
      && (reply == None || reply == Some(ClockSyncResponse))
  {
  }

  // ---- Resends ---------------------------------------------------------------

  /** A client's resend is a message already on the network: it adds none. */
  lemma ClientResendRepeats(u: Setup, s: System)
    requires Inv(u.crypto, s)
    ensures Step(u, s, ClientResends) == s
  {
  }

  /** A repeated cookie response makes the host repeat a message already on the network,
      and changes no connection. */
  lemma HostResendRepeats(u: Setup, s: System, m: Msg, generated: Private, token: Token)
    requires Inv(u.crypto, s) && RoutedToLive(s) && s.ever[s.live.value].state != Connected
    requires m.CookieResponse? || m == Garbled(CookieResponseKind)
    ensures var t := HostReceives(u, s, m, generated, token); t == s.(live := t.live)
  {
    hide ResponseInv, ClientInv;
    assert ServerInv(u.crypto, s.client.hs, s.live.value, s.ever[s.live.value], s.toClient);
  }

  lemma NewPeerStepKeepsInv(u: Setup, s: System, m: Msg, generated: Private, token: Token)
    requires Inv(u.crypto, s) && !RoutedToLive(s) && (m in s.toServer || m.Garbled?) && token !in s.ever
    ensures Inv(u.crypto, HostReceives(u, s, m, generated, token))
  {
    var t := HostReceives(u, s, m, generated, token);
    forall k | k in t.ever ensures ServerInv(u.crypto, t.client.hs, k, t.ever[k], t.toClient) {
      if k in s.ever { assert ServerInv(u.crypto, s.client.hs, k, s.ever[k], s.toClient); }
    }
    forall r | r in t.toClient ensures ResponseInv(u.crypto, t.ever, r) {
      if r in s.toClient { assert ResponseInv(u.crypto, s.ever, r); }
    }
  }

  lemma StepKeepsInv(u: Setup, s: System, e: Event)
    requires Inv(u.crypto, s) && Enabled(s, e)
    ensures Inv(u.crypto, Step(u, s, e))
  {
    match e
    case ClientGets(m, generated) => ClientStepKeepsInv(u, s, m, generated);
    case ClientResends =>
    case ClientMarks(_) =>
    case HostGets(m, generated, token) =>
      if RoutedToLive(s) {
        LiveStepKeepsInv(u, s, m, generated, token);
      } else {
        NewPeerStepKeepsInv(u, s, m, generated, token);
      }
    case HostDrops =>
    case HostMarks(_) =>
  }

  lemma {:induction false} RunKeepsInv(u: Setup, es: seq<Event>)
    requires Legal(u, es)
    ensures Inv(u.crypto, Run(u, es))
  {
    if es != [] {
      var n := |es| - 1;
      RunKeepsInv(u, es[..n]);
      StepKeepsInv(u, Run(u, es[..n]), es[n]);
    }
  }

  lemma StepKeepsEphemeral(u: Setup, s: System, e: Event)
    requires s.client.hs.cookieHandled
    ensures var t := Step(u, s, e); t.client.hs.cookieHandled && t.client.hs.ephemeral == s.client.hs.ephemeral
    ensures var t := Step(u, s, e); s.client.hs.haveKeys ==>
      t.client.hs.haveKeys && t.client.hs.(complete := true) == s.client.hs.(complete := true)
  {
  }

  /** Once made, the client's ephemeral key stays for the rest of the run, and so do its keys. */
  lemma {:induction false} EphemeralIsForEver(u: Setup, es: seq<Event>, i: nat)
    requires Legal(u, es) && i <= |es|
    requires Run(u, es[..i]).client.hs.cookieHandled
    ensures var earlier, now := Run(u, es[..i]).client.hs, Run(u, es).client.hs;
      && now.cookieHandled && now.ephemeral == earlier.ephemeral
      && (earlier.haveKeys ==> now.haveKeys && now.(complete := true) == earlier.(complete := true))
  {
    if i == |es| {
      assert es[..i] == es;
    } else {
      hide Step;
      var n := |es| - 1;
      assert es[..n][..i] == es[..i];
      EphemeralIsForEver(u, es[..n], i);
      StepKeepsEphemeral(u, Run(u, es[..n]), es[n]);
    }
  }

  /** Main result: in every run, when the client holds keys its token names a connection
      the host opened, and the two hold the same epoch and the same key pair; their
      channels mirror each other. If the host opened only one connection, that is it. */
  lemma KeyAgreement(u: Setup, es: seq<Event>, s: System)
    requires Symmetric(u.crypto) && Legal(u, es) && s == Run(u, es)
    ensures s.client.hs.haveKeys ==>
      var hs := s.client.hs;
      && hs.token in s.ever && s.ever[hs.token].hs.haveKeys
      && hs.epoch == s.ever[hs.token].hs.epoch
      && hs.keyC2S == s.ever[hs.token].hs.keyC2S && hs.keyS2C == s.ever[hs.token].hs.keyS2C
    ensures s.client.channel.Some? ==>
      var ch := s.client.channel.value;
      ch.token in s.ever && (s.ever[ch.token].channel.Some? ==>
        s.ever[ch.token].channel.value == Channel(ch.token, ch.recvKey, ch.sendKey, ch.epoch))
    ensures forall t :: s.client.hs.haveKeys && s.ever.Keys == {t} ==> s.client.hs.token == t
  {
    RunKeepsInv(u, es);
    hide Run, Legal;
    if s.client.hs.haveKeys {
      var t := s.client.hs.token;
      assert ServerInv(u.crypto, s.client.hs, t, s.ever[t], s.toClient);
    }
  }

  // ---- Forged messages --------------------------------------------------------

  /** The host made this ephemeral for one of its connections. */
  ghost predicate HostMade(c: Crypto, ever: map<Token, ServerState>, pub: Public) {
    exists t :: t in ever && c.publicOf(ever[t].hs.ephemeral) == pub
  }

  /** The network may deliver anything, but nobody else can sign for the pinned key. */
  ghost predicate EnabledForged(u: Setup, s: System, e: Event) {
    match e
    case ClientGets(m, _) =>
      m.HandshakeResponse? && u.crypto.verify(u.pinned, m.serverPub, m.signature) ==>
        HostMade(u.crypto, s.ever, m.serverPub)
    case HostGets(_, _, token) => token !in s.ever
    case _ => true
  }

  ghost predicate LegalForged(u: Setup, es: seq<Event>) {
    es == [] || (LegalForged(u, es[..|es| - 1]) && EnabledForged(u, Run(u, es[..|es| - 1]), es[|es| - 1]))
  }

  /** The client's keys come from its ephemeral and one the host made. */
  ghost predicate SharedWithHost(c: Crypto, hs: ClientHs, ever: map<Token, ServerState>) {
    exists t :: t in ever && KeysFrom(c, hs.ephemeral, c.publicOf(ever[t].hs.ephemeral), hs.epoch, hs.keyC2S, hs.keyS2C)
  }

  ghost predicate ForgedInv(c: Crypto, s: System) {
    && (!s.client.hs.cookieHandled ==> s.client.hs.ephemeral == NO_KEY_PAIR)
    && (s.client.hs.haveKeys ==> s.client.hs.cookieHandled && SharedWithHost(c, s.client.hs, s.ever))
  }

  /** An endpoint without a key pair agrees on nothing. */
  ghost predicate NeedsKeyPair(c: Crypto) {
    forall pub :: c.agree(NO_KEY_PAIR, pub) == None
  }

  lemma ClientStepKeepsShared(u: Setup, s: System, m: Msg, generated: Private)
    requires NeedsKeyPair(u.crypto) && ForgedInv(u.crypto, s) && EnabledForged(u, s, ClientGets(m, generated))
    ensures ForgedInv(u.crypto, Step(u, s, ClientGets(m, generated)))
  {
    var c, hs, now := u.crypto, s.client.hs, Step(u, s, ClientGets(m, generated)).client.hs;
    if !hs.haveKeys && now.haveKeys {
      var t :| t in s.ever && c.publicOf(s.ever[t].hs.ephemeral) == m.serverPub;
      assert KeysFrom(c, now.ephemeral, c.publicOf(s.ever[t].hs.ephemeral), now.epoch, now.keyC2S, now.keyS2C);
    } else if hs.haveKeys {
      var t :| t in s.ever
        && KeysFrom(c, hs.ephemeral, c.publicOf(s.ever[t].hs.ephemeral), hs.epoch, hs.keyC2S, hs.keyS2C);
      assert KeysFrom(c, now.ephemeral, c.publicOf(s.ever[t].hs.ephemeral), now.epoch, now.keyC2S, now.keyS2C);
    }
  }

  lemma OtherStepKeepsShared(u: Setup, s: System, e: Event)
    requires ForgedInv(u.crypto, s) && EnabledForged(u, s, e) && !e.ClientGets?
    ensures ForgedInv(u.crypto, Step(u, s, e))
  {
    var c, hs, t := u.crypto, s.client.hs, Step(u, s, e);
    assert t.client.hs == hs;
    if hs.haveKeys {
      var k :| k in s.ever
        && KeysFrom(c, hs.ephemeral, c.publicOf(s.ever[k].hs.ephemeral), hs.epoch, hs.keyC2S, hs.keyS2C);
      assert k in t.ever && t.ever[k].hs.ephemeral == s.ever[k].hs.ephemeral;
    }
  }

  /** Main result, for a network that may also forge: when the client holds keys, they come
      from its own ephemeral and one the host made. */
  lemma {:induction false} SignedKeyAgreement(u: Setup, es: seq<Event>)
    requires NeedsKeyPair(u.crypto) && LegalForged(u, es)
    ensures ForgedInv(u.crypto, Run(u, es))
  {
    if es != [] {
      hide Step, EnabledForged, NeedsKeyPair;
      var n := |es| - 1;
      SignedKeyAgreement(u, es[..n]);
      match es[n]
      case ClientGets(m, generated) => ClientStepKeepsShared(u, Run(u, es[..n]), m, generated);
      case _ => OtherStepKeepsShared(u, Run(u, es[..n]), es[n]);
    } else {
      assert !Init().client.hs.haveKeys && ForgedInv(u.crypto, Init());
    }
  }

  /** Token and epoch are not covered by the signature: beside a valid one the client takes
      whatever it reads. */
  lemma ResponseFieldsAreUnsigned(c: Crypto, pinned: Public, hs: ClientHs, pub: Public, sig: nat, token: Token,
                                  epoch: nat, g: Private)
    requires !hs.haveKeys && c.verify(pinned, pub, sig) && c.agree(hs.ephemeral, pub).Some?
    requires c.derive(c.agree(hs.ephemeral, pub).value, epoch).Some?
    ensures var (now, out) := ClientHandles(c, pinned, hs, HandshakeResponse(pub, sig, token, epoch), g);
      now.haveKeys && now.token == token && now.epoch == epoch && out == Send(ClockSyncRequest)
  {
  }

  /** Ideal cryptography: keys tell the secret and the epoch they came from, and a secret
      the two public keys behind it. */
  ghost predicate Collisionless(c: Crypto) {
    && (forall s, e, s', e' :: c.derive(s, e).Some? && c.derive(s, e) == c.derive(s', e') ==> s == s' && e == e')
    && (forall a, p, b, q :: c.agree(a, p).Some? && c.agree(a, p) == c.agree(b, q) ==>
          SamePair(c.publicOf(a), p, c.publicOf(b), q))
  }

  ghost predicate SamePair(p: Public, q: Public, p': Public, q': Public) {
    (p == p' && q == q') || (p == q' && q == p')
  }

  /** What both ends' keys came from. */
  ghost predicate OriginInv(c: Crypto, s: System) {
    var hs := s.client.hs;
    && (!hs.cookieHandled ==> hs.ephemeral == NO_KEY_PAIR)
    && (hs.haveKeys ==> hs.cookieHandled && KeysFrom(c, hs.ephemeral, s.shown, hs.epoch, hs.keyC2S, hs.keyS2C))
    && (forall t :: t in s.ever ==> HostOrigin(c, s.peers, t, s.ever[t].hs))
  }

  ghost predicate HostOrigin(c: Crypto, peers: map<Token, Public>, t: Token, hs: ServerHs) {
    hs.haveKeys ==> t in peers && KeysFrom(c, hs.ephemeral, peers[t], hs.epoch, hs.keyC2S, hs.keyS2C)
  }

  lemma ClientStepKeepsOrigin(u: Setup, s: System, m: Msg, generated: Private)
    requires NeedsKeyPair(u.crypto) && OriginInv(u.crypto, s)
    ensures OriginInv(u.crypto, Step(u, s, ClientGets(m, generated)))
  {
    hide HostOrigin;
  }

  lemma HostStepKeepsOrigin(u: Setup, s: System, m: Msg, generated: Private, token: Token)
    requires OriginInv(u.crypto, s) && token !in s.ever
    ensures OriginInv(u.crypto, HostReceives(u, s, m, generated, token))
  {
    var c, t := u.crypto, HostReceives(u, s, m, generated, token);
    forall k | k in t.ever ensures HostOrigin(c, t.peers, k, t.ever[k].hs) {
      if k in s.ever { assert HostOrigin(c, s.peers, k, s.ever[k].hs); }
    }
  }

  lemma MarkKeepsOrigin(u: Setup, s: System, e: Event)
    requires OriginInv(u.crypto, s) && !e.ClientGets? && !e.HostGets?
    ensures OriginInv(u.crypto, Step(u, s, e))
  {
  }

  lemma {:induction false} RunKeepsOrigin(u: Setup, es: seq<Event>)
    requires NeedsKeyPair(u.crypto) && LegalForged(u, es)
    ensures OriginInv(u.crypto, Run(u, es))
  {
    if es != [] {
      var n := |es| - 1;
      hide HostReceives, ClientReceives, OriginInv, NeedsKeyPair;
      RunKeepsOrigin(u, es[..n]);
      var s := Run(u, es[..n]);
      match es[n]
      case ClientGets(m, generated) => ClientStepKeepsOrigin(u, s, m, generated);
      case HostGets(m, generated, token) => HostStepKeepsOrigin(u, s, m, generated, token);
      case _ => MarkKeepsOrigin(u, s, es[n]);
    }
  }

  /** Exactly when the token a client took names a connection with its keys, on a network
      that forges: the response it accepted showed that connection's ephemeral and epoch,
      and the connection answered the client's own ephemeral. */
  lemma TokenNamesKeysExactly(u: Setup, es: seq<Event>, s: System)
    requires Symmetric(u.crypto) && NeedsKeyPair(u.crypto) && Collisionless(u.crypto)
    requires LegalForged(u, es) && s == Run(u, es)
    requires s.client.hs.haveKeys && s.client.hs.token in s.ever && s.ever[s.client.hs.token].hs.haveKeys
    requires u.crypto.publicOf(s.client.hs.ephemeral) != u.crypto.publicOf(s.ever[s.client.hs.token].hs.ephemeral)
    ensures s.client.hs.token in s.peers
    ensures var hs, conn := s.client.hs, s.ever[s.client.hs.token].hs;
      SameKeys(hs, conn) <==> AnsweredHonestly(u.crypto, hs, conn, s.shown, s.peers[hs.token])
  {
    RunKeepsOrigin(u, es);
    hide Run, LegalForged;
    var c, hs, conn := u.crypto, s.client.hs, s.ever[s.client.hs.token].hs;
    assert HostOrigin(c, s.peers, hs.token, conn);
    var peer := s.peers[hs.token];
    assert c.agree(hs.ephemeral, c.publicOf(conn.ephemeral)) == c.agree(conn.ephemeral, c.publicOf(hs.ephemeral));
    if SameKeys(hs, conn) {
      assert SamePair(c.publicOf(hs.ephemeral), s.shown, c.publicOf(conn.ephemeral), peer);
    }
  }

  ghost predicate SameKeys(client: ClientHs, conn: ServerHs) {
    client.keyC2S == conn.keyC2S && client.keyS2C == conn.keyS2C
  }

  /** The client was shown this connection's ephemeral and epoch, and the connection the client's ephemeral. */
  ghost predicate AnsweredHonestly(c: Crypto, client: ClientHs, conn: ServerHs, shown: Public, peer: Public) {
    shown == c.publicOf(conn.ephemeral) && client.epoch == conn.epoch && peer == c.publicOf(client.ephemeral)
  }

  // ---- The handshake ends ------------------------------------------------------

  /** A client with keys and no channel that gets the clock sync response has its channel
      and goes on to authenticate. */
  lemma ClockSyncEndsHandshake(c: Crypto, pinned: Public, s: ClientState, generated: Private)
    requires s.hs.haveKeys && s.channel.None?
    ensures var (t, reply) := ClientReceives(c, pinned, s, ClockSyncResponse, generated);
      && t.channel == Some(Channel(s.hs.token, s.hs.keyC2S, s.hs.keyS2C, s.hs.epoch))
      && t.state == Authenticating && reply == None && t.hs == s.hs.(complete := true)
  {
  }

  /** A connection with keys answers every clock sync request, and has the mirrored channel
      from the first one on. */
  lemma ClockSyncIsAnswered(conn: ServerState)
    requires conn.hs.haveKeys
    ensures var (t, reply) := ServerReceives(conn, ClockSyncRequest);
      && reply == Some(ClockSyncResponse) && t.hs == conn.hs.(complete := true)
      && (conn.channel.None? ==>
            t.channel == Some(Channel(conn.token, conn.hs.keyS2C, conn.hs.keyC2S, conn.hs.epoch)))
      && (conn.channel.Some? ==> t.channel == conn.channel)
      && t.state == if conn.channel.None? then Authenticating else conn.state
  {
  }

  /** An end that has its channel keeps it, and clock sync repeated or late does not take it
      back to authenticating. */
  lemma ChannelIsMadeOnce(c: Crypto, pinned: Public, s: ClientState, conn: ServerState, m: Msg, generated: Private)
    ensures s.channel.Some? ==>
      var t := ClientReceives(c, pinned, s, m, generated).0;
      t.channel == s.channel && t.state in {s.state, Disconnected}
    ensures conn.channel.Some? ==>
      var t := ServerReceives(conn, m).0; t.channel == conn.channel && t.state in {conn.state, Disconnected}
  {
  }

  /** What ends a handshake in failure: a version reject, an undecodable message, a bad
      signature, or failing cryptography. */
  lemma FailureDisconnects(c: Crypto, pinned: Public, s: ClientState, m: Msg, generated: Private)
    requires m in {VersionReject, Garbled(CookieKind), Garbled(SyncResponseKind)}
      || (m == Garbled(ResponseKind) && !s.hs.haveKeys)
      || (m.HandshakeResponse? && !s.hs.haveKeys && !c.verify(pinned, m.serverPub, m.signature))
      || (m.HandshakeResponse? && !s.hs.haveKeys && c.agree(s.hs.ephemeral, m.serverPub).None?)
      || (m.HandshakeResponse? && !s.hs.haveKeys && c.derive(c.agree(s.hs.ephemeral, m.serverPub).value, m.epoch).None?)
    ensures var (t, reply) := ClientReceives(c, pinned, s, m, generated);
      t.state == Disconnected && reply == None && t.hs.haveKeys == s.hs.haveKeys && t.channel == s.channel
  {
  }

  /** The host's side: a connection that cannot begin is disconnected, has no keys and says
      nothing, and an undecodable clock sync request disconnects one that did. */
  lemma HostFailureDisconnects(c: Crypto, staticPriv: Private, token: Token, m: Msg, generated: Private,
                               conn: ServerState)
    ensures var (begun, reply) := ServerBegins(c, staticPriv, token, m, generated);
      && (reply.None? <==> begun.state == Disconnected) && (reply.Some? <==> begun.hs.haveKeys)
      && begun.token == token && begun.channel.None? && begun.last == reply
      && (reply.Some? ==> begun.state == Handshaking && m.CookieResponse?)
    ensures var (t, reply) := ServerReceives(conn, Garbled(SyncRequestKind));
      t == conn.(state := Disconnected) && reply.None?
  {
  }

  /** The cookie phase leaves no connection behind: a hello is answered by version, and a
      response whose cookie does not verify by nothing. */
  lemma CookiePhaseIsStateless(u: Setup, s: System, m: Msg, generated: Private, token: Token)
    requires !RoutedToLive(s) && (m.CookieResponse? ==> !u.crypto.cookieOk(m.echoed))
    ensures var t := HostReceives(u, s, m, generated, token);
      && t == s.(toClient := t.toClient)
      && t.toClient == s.toClient
           + (if m == ClientHello(PacketCodec.PROTOCOL_ID) then {Cookie(u.crypto.makeCookie)}
              else if m.ClientHello? then {VersionReject} else {})
  {
  }

  /** Everything the two ends compute succeeds for these two key pairs. */
  ghost predicate Succeeds(u: Setup, client: Private, host: Private) {
    var c := u.crypto;
    && c.cookieOk(c.makeCookie)
    && c.agree(client, c.publicOf(host)).Some?
    && c.derive(c.agree(client, c.publicOf(host)).value, 0).Some?
    && c.sign(u.staticPriv, c.publicOf(host)).Some?
    && c.verify(u.pinned, c.publicOf(host), c.sign(u.staticPriv, c.publicOf(host)).value)
  }

  /** Hello, cookie, cookie response, handshake response, clock sync: nothing is lost. */
  ghost function FullExchange(u: Setup, client: Private, host: Private, token: Token): seq<Event>
    requires Succeeds(u, client, host)
  {
    var c := u.crypto;
    var sig := c.sign(u.staticPriv, c.publicOf(host)).value;
    [HostGets(ClientHello(PacketCodec.PROTOCOL_ID), host, token),
     ClientGets(Cookie(c.makeCookie), client),
     HostGets(CookieResponse(c.makeCookie, c.publicOf(client)), host, token),
     ClientGets(HandshakeResponse(c.publicOf(host), sig, token, 0), client),
     HostGets(ClockSyncRequest, host, token + 1),
     ClientGets(ClockSyncResponse, client)]
  }

  /** One more event of a legal run. */
  lemma OneMore(u: Setup, es: seq<Event>, e: Event)
    requires Legal(u, es) && Enabled(Run(u, es), e)
    ensures Legal(u, es + [e]) && Run(u, es + [e]) == Step(u, Run(u, es), e)
  {
    assert (es + [e])[..|es|] == es;
  }

  /** Main result: with succeeding cryptography, when nothing is lost, the exchange ends
      with a channel at either end, and the two mirror each other. */
  lemma HandshakeCompletes(u: Setup, client: Private, host: Private, token: Token)
    requires Symmetric(u.crypto) && Succeeds(u, client, host)
    ensures var es := FullExchange(u, client, host, token); Legal(u, es) && BothConnected(Run(u, es), token)
  {
    var es := FullExchange(u, client, host, token);
    assert es[..0] == [] && Legal(u, []);
    ExchangeCookie(u, client, host, token);
    ExchangeKeys(u, client, host, token);
    ExchangeClockSync(u, client, host, token);
    assert es == es[..6];
  }

  ghost predicate BothConnected(s: System, token: Token) {
    && s.client.state == Authenticating && s.client.channel.Some?
    && token in s.ever && s.ever[token].state == Authenticating && s.ever[token].channel.Some?
    && var ch := s.client.channel.value;
       ch.token == token && s.ever[token].channel.value == Channel(token, ch.recvKey, ch.sendKey, ch.epoch)
  }

  lemma ExchangeCookie(u: Setup, client: Private, host: Private, token: Token)
    requires Succeeds(u, client, host)
    ensures var es, c := FullExchange(u, client, host, token), u.crypto;
      && Legal(u, es[..2])
      && var s := Run(u, es[..2]);
         && s.client == ClientState(NewClientHs.(cookieHandled := true, ephemeral := client), None, Handshaking,
                                    Some(CookieResponse(c.makeCookie, c.publicOf(client))))
         && CookieResponse(c.makeCookie, c.publicOf(client)) in s.toServer && s.ever == map[] && s.live == None
  {
    var es := FullExchange(u, client, host, token);
    assert es[..0] == [] && es[..1] == [] + [es[0]] && es[..2] == es[..1] + [es[1]];
    OneMore(u, [], es[0]);
    OneMore(u, es[..1], es[1]);
  }

  lemma ExchangeKeys(u: Setup, client: Private, host: Private, token: Token)
    requires Symmetric(u.crypto) && Succeeds(u, client, host)
    ensures var es, c := FullExchange(u, client, host, token), u.crypto;
      && Legal(u, es[..4])
      && var s, keys := Run(u, es[..4]), c.derive(c.agree(client, c.publicOf(host)).value, 0).value;
         && s.client.hs.haveKeys && s.client.hs.token == token && s.client.hs.epoch == 0 && s.client.channel.None?
         && s.client.hs.keyC2S == keys.0 && s.client.hs.keyS2C == keys.1
         && s.ever.Keys == {token} && s.live == Some(token) && ClockSyncRequest in s.toServer
         && var conn := s.ever[token];
            && conn.hs.haveKeys && conn.hs.keyC2S == keys.0 && conn.hs.keyS2C == keys.1 && conn.hs.epoch == 0
            && conn.token == token && conn.channel.None? && conn.state == Handshaking
  {
    var es, c := FullExchange(u, client, host, token), u.crypto;
    ExchangeCookie(u, client, host, token);
    assert es[..3] == es[..2] + [es[2]] && es[..4] == es[..3] + [es[3]];
    assert c.agree(host, c.publicOf(client)) == c.agree(client, c.publicOf(host));
    OneMore(u, es[..2], es[2]);
    hide Run, Legal;
    OneMore(u, es[..3], es[3]);
  }

  lemma ExchangeClockSync(u: Setup, client: Private, host: Private, token: Token)
    requires Symmetric(u.crypto) && Succeeds(u, client, host)
    ensures var es := FullExchange(u, client, host, token); Legal(u, es[..6]) && BothConnected(Run(u, es[..6]), token)
  {
    var es := FullExchange(u, client, host, token);
    ExchangeKeys(u, client, host, token);
    assert es[..5] == es[..4] + [es[4]] && es[..6] == es[..5] + [es[5]];
    hide Run, Legal;
    OneMore(u, es[..4], es[4]);
    OneMore(u, es[..5], es[5]);
  }

  // ---- Lost messages are sent again ----------------------------------------------

  /** Whatever the client sent last it sends again while it is handshaking, and only then. */
  lemma {:induction false} ClientResendsLast(u: Setup, es: seq<Event>)
    ensures var s := Run(u, es).client;
      s.last.Some? && ToResend(s.state, s.last) == if s.state == Handshaking then s.last else None
    ensures forall m, g :: ClientReceives(u.crypto, u.pinned, Run(u, es).client, m, g).1.Some? ==>
      var (t, reply) := ClientReceives(u.crypto, u.pinned, Run(u, es).client, m, g); t.last == reply
  {
    if es != [] {
      hide HostReceives;
      ClientResendsLast(u, es[..|es| - 1]);
    }
  }

  /** A response that was lost comes again: a connection that has just begun repeats it for
      every repeated cookie response. */
  lemma LostResponseComesAgain(u: Setup, token: Token, m: Msg, generated: Private, s: System, again: Msg)
    requires m.CookieResponse? && u.crypto.cookieOk(m.echoed) && !RoutedToLive(s) && again.CookieResponse?
    ensures var (conn, reply) := ServerBegins(u.crypto, u.staticPriv, token, m, generated);
      reply.Some? ==>
        && reply.value.HandshakeResponse? && ToResend(conn.state, conn.last) == reply
        && var t := HostReceives(u, s, m, generated, token);
           && t.ever[token] == conn
           && reply.value in HostReceives(u, t.(toClient := {}), again, generated, token + 1).toClient
  {
  }
}
