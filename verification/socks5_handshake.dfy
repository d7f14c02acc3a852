/** transport/socks5/socks5.go: ClientHandshake and ServerHandshake, composed over two reliable byte
    streams (sections 3 to 6 of RFC 1928, section 2 of RFC 1929). Each side is what it does between two
    reads: it waits for a number of bytes, then writes, fails, finishes or waits again. */
module Socks5Handshake {
  import opened ByteCodec
  import opened Options
  import opened Socks5Addr

  const CONNECT: byte := 1
  const UDP_ASSOCIATE: byte := 3

  /** A user name and a password, as bytes. */
  datatype User = User(name: Bytes, password: Bytes)

  type Verifier = User -> bool

  /** What the server is configured with: an authenticator or none, and its own address, if it has one
      that can be written. */
  datatype ServerConfig = ServerConfig(verify: Option<Verifier>, local: Option<Addr>)

  datatype ClientConfig = ClientConfig(addr: Addr, command: byte, user: Option<User>)

  datatype Failure = AuthFailed | VersionError | NeedAuth | Rejected | CommandNotSupported | NotAnAddress

  datatype Server =
    | Greeting
    | Methods(count: nat)
    | AuthHeader
    | Name(count: nat)
    | PasswordLength(name: Bytes)
    | Password(name: Bytes, count: nat)
    | Request
    | Target(command: byte, got: Bytes) // reading the address, of which `got` has come in
    | Served(command: byte, addr: Bytes)
    | ServerFailed(why: Failure)

  datatype Client =
    | Begin
    | AwaitMethod
    | AwaitVerdict
    | AwaitReply
    | Bound(got: Bytes) // reading the server's address
    | Connected(addr: Bytes)
    | ClientFailed(why: Failure)

  /** How many bytes ReadAddr asks for next, having read `got`. */
  function AddrNeeds(got: Bytes): nat {
    if |got| == 0 then 1
    else if got[0] == ATYP_DOMAIN && |got| == 1 then 1
    else if AddrLength(got).Some? && |got| <= AddrLength(got).value then AddrLength(got).value - |got|
    else 0
  }

  function ServerNeeds(s: Server): Option<nat> {
    match s
    case Greeting => Some(2)
    case Methods(n) => Some(n)
    case AuthHeader => Some(2)
    case Name(n) => Some(n)
    case PasswordLength(_) => Some(1)
    case Password(_, n) => Some(n)
    case Request => Some(3)
    case Target(_, got) => Some(AddrNeeds(got))
    case Served(_, _) => None
    case ServerFailed(_) => None
  }

  function ClientNeeds(c: Client): Option<nat> {
    match c
    case Begin => Some(0)
    case AwaitMethod => Some(2)
    case AwaitVerdict => Some(2)
    case AwaitReply => Some(3)
    case Bound(got) => Some(AddrNeeds(got))
    case Connected(_) => None
    case ClientFailed(_) => None
  }

  /** The server with the bytes it waited for: what it does next, and what it writes. */
  function ServerReads(cfg: ServerConfig, s: Server, b: Bytes): (Server, Bytes)
    requires ServerNeeds(s) == Some(|b|)
  {
    match s
    case Greeting => (Methods(b[1]), [])
    case Methods(_) => if cfg.verify.Some? then (AuthHeader, [5, 2]) else (Request, [5, 0])
    case AuthHeader => if b[1] == 0 then (ServerFailed(AuthFailed), [1, 1]) else (Name(b[1]), [])
    case Name(_) => (PasswordLength(b), [])
    case PasswordLength(name) => if b[0] == 0 then (ServerFailed(AuthFailed), [1, 1]) else (Password(name, b[0]), [])
    case Password(name, _) =>
      if cfg.verify.Some? && cfg.verify.value(User(name, b)) then (Request, [1, 0]) else (ServerFailed(AuthFailed), [1, 1])
    case Request => (Target(b[1], []), [])
    case Target(command, got) =>
      var all := got + b;
      if WellFormed(all) then ServerAnswers(cfg, command, all)
      else if AddrNeeds(all) == 0 then (ServerFailed(NotAnAddress), [])
      else (Target(command, all), [])
  }

  function ServerAnswers(cfg: ServerConfig, command: byte, addr: Bytes): (Server, Bytes) {
    if command == CONNECT || command == UDP_ASSOCIATE then
      if cfg.local.None? then (ServerFailed(NotAnAddress), []) else (Served(command, addr), [5, 0, 0] + cfg.local.value)
    else (ServerFailed(CommandNotSupported), [])
  }

  function PasswordPart(u: User): Bytes { [|u.password| % 256] + u.password }

  /** RFC 1929 gives each length one byte; a longer string would lose the rest of its length. */
  function AuthMessage(u: User): Bytes {
    [1, |u.name| % 256] + u.name + PasswordPart(u)
  }

  function RequestMessage(cfg: ClientConfig): Bytes { [5, cfg.command, 0] + cfg.addr }

  function ClientReads(cfg: ClientConfig, c: Client, b: Bytes): (Client, Bytes)
    requires ClientNeeds(c) == Some(|b|)
  {
    match c
    case Begin => (AwaitMethod, if cfg.user.Some? then [5, 1, 2] else [5, 1, 0])
    case AwaitMethod =>
      if b[0] != 5 then (ClientFailed(VersionError), [])
      else if b[1] == 2 then
        if cfg.user.None? then (ClientFailed(AuthFailed), []) else (AwaitVerdict, AuthMessage(cfg.user.value))
      else if b[1] != 0 then (ClientFailed(NeedAuth), [])
      else (AwaitReply, RequestMessage(cfg))
    case AwaitVerdict => if b[1] != 0 then (ClientFailed(Rejected), []) else (AwaitReply, RequestMessage(cfg))
    case AwaitReply => (Bound([]), [])
    case Bound(got) =>
      var all := got + b;
      if WellFormed(all) then (Connected(all), [])
      else if AddrNeeds(all) == 0 then (ClientFailed(NotAnAddress), [])
      else (Bound(all), [])
  }

  // ---------- The composition ----------

  /** Both sides and the bytes under way in either direction. */
  datatype Net = Net(client: Client, server: Server, toServer: Bytes, toClient: Bytes)

  datatype Config = Config(client: ClientConfig, server: ServerConfig)

  const START := Net(Begin, Greeting, [], [])

  datatype Side = ClientSide | ServerSide

  predicate CanMove(n: Net, side: Side) {
    if side.ClientSide? then ClientNeeds(n.client).Some? && ClientNeeds(n.client).value <= |n.toClient|
    else ServerNeeds(n.server).Some? && ServerNeeds(n.server).value <= |n.toServer|
  }

  function Move(cfg: Config, n: Net, side: Side): Net
    requires CanMove(n, side)
  {
    if side.ClientSide? then
      var k := ClientNeeds(n.client).value;
      var (c, out) := ClientReads(cfg.client, n.client, n.toClient[..k]);
      Net(c, n.server, n.toServer + out, n.toClient[k..])
    else
      var k := ServerNeeds(n.server).value;
      var (s, out) := ServerReads(cfg.server, n.server, n.toServer[..k]);
      Net(n.client, s, n.toServer[k..], n.toClient + out)
  }

  /** Names and passwords that have to be sent are within the lengths of RFC 1929. */
  predicate LengthsFit(cfg: Config) {
    cfg.server.verify.Some? && cfg.client.user.Some? ==> |cfg.client.user.value.name| <= 255 && |cfg.client.user.value.password| <= 255
  }

  predicate Authorised(cfg: Config) {
    cfg.server.verify.Some? ==>
      cfg.client.user.Some?
      && |cfg.client.user.value.name| > 0 && |cfg.client.user.value.password| > 0
      && cfg.server.verify.value(cfg.client.user.value)
  }

  predicate Accepts(cfg: Config) {
    Authorised(cfg) && (cfg.client.command == CONNECT || cfg.client.command == UDP_ASSOCIATE) && cfg.server.local.Some?
  }

  predicate BothSucceeded(n: Net) { n.client.Connected? && n.server.Served? }

  // ---------- The invariant, phase by phase ----------

  /** From the start to the server's choice of a method. */
  predicate Negotiating(cfg: Config, n: Net) {
    var hello := if cfg.client.user.Some? then 2 else 0;
    n == START
    || (n.client.AwaitMethod? && n.toClient == []
        && ((n.server.Greeting? && n.toServer == [5, 1, hello]) || (n.server == Methods(1) && n.toServer == [hello])))
    || (n.client.AwaitMethod? && n.toServer == []
        && if cfg.server.verify.Some? then n.server.AuthHeader? && n.toClient == [5, 2]
           else n.server.Request? && n.toClient == [5, 0])
  }

  /** While the server reads and checks who the user is. */
  predicate Authenticating(cfg: Config, n: Net) {
    cfg.server.verify.Some? && cfg.client.user.Some? && n.client.AwaitVerdict?
    && var u := cfg.client.user.value;
       (n.toClient == []
        && ((n.server.AuthHeader? && n.toServer == AuthMessage(u))
            || (n.server == Name(|u.name|) && |u.name| > 0 && n.toServer == u.name + PasswordPart(u))
            || (n.server == PasswordLength(u.name) && |u.name| > 0 && n.toServer == PasswordPart(u))
            || (n.server == Password(u.name, |u.password|) && |u.name| > 0 && |u.password| > 0 && n.toServer == u.password)))
       || (n.server.Request? && Authorised(cfg) && n.toServer == [] && n.toClient == [1, 0])
  }

  /** The client has sent its request and the server is reading it. */
  predicate Requesting(cfg: Config, n: Net) {
    n.client.AwaitReply? && Authorised(cfg) && n.toClient == []
    && ((n.server.Request? && n.toServer == RequestMessage(cfg.client))
        || (n.server.Target? && n.server.command == cfg.client.command && Partial(n.server.got, n.toServer, cfg.client.addr)))
  }

  /** `got` and what is under way make up an address, of which there is something left to read. */
  predicate Partial(got: Bytes, rest: Bytes, addr: Bytes) {
    got + rest == addr && WellFormed(addr) && (|got| <= 1 || (|got| == 2 && got[0] == ATYP_DOMAIN))
  }

  /** The server is done; the client reads its answer. */
  predicate Answering(cfg: Config, n: Net) {
    Accepts(cfg) && n.server == Served(cfg.client.command, cfg.client.addr) && n.toServer == []
    && var local := cfg.server.local.value;
       (n.client.AwaitReply? && n.toClient == [5, 0, 0] + local)
       || (n.client.Bound? && Partial(n.client.got, n.toClient, local))
       || (n.client == Connected(local) && n.toClient == [])
  }

  /** One side has given up and the other one will not succeed. */
  predicate Doomed(cfg: Config, n: Net) {
    !Accepts(cfg)
    && ((n.server.ServerFailed?
         && (n.client.ClientFailed? || (n.client.AwaitVerdict? && n.toClient == [1, 1]) || (n.client.AwaitReply? && n.toClient == [])))
        || (n.client.ClientFailed? && n.server.AuthHeader? && n.toServer == []))
  }

  predicate Inv(cfg: Config, n: Net) {
    Negotiating(cfg, n) || Authenticating(cfg, n) || Requesting(cfg, n) || Answering(cfg, n) || Doomed(cfg, n)
  }

  // ---------- Every move keeps it ----------

  lemma NegotiatingMoves(cfg: Config, n: Net, side: Side)
    requires LengthsFit(cfg) && Negotiating(cfg, n) && CanMove(n, side)
    ensures Inv(cfg, Move(cfg, n, side)) && Rank(Move(cfg, n, side)) < Rank(n)
  {
    var hello := if cfg.client.user.Some? then 2 else 0;
    if n.server.Greeting? && n.client.AwaitMethod? {
      assert [5, 1, hello][..2] == [5, 1] && [5, 1, hello][2..] == [hello];
    }
  }

  lemma AuthMessageParts(u: User)
    requires |u.name| <= 255
    ensures var m := AuthMessage(u); |m| >= 2 && m[..2] == [1, |u.name|] && m[2..] == u.name + PasswordPart(u)
  {
    hide PasswordPart;
    var m := AuthMessage(u);
    assert m == [1, |u.name|] + (u.name + PasswordPart(u));
  }

  lemma HeaderMove(cfg: Config, u: User)
    requires |u.name| <= 255 && |u.password| <= 255
    ensures var n := Net(AwaitVerdict, AuthHeader, AuthMessage(u), []);
            CanMove(n, ServerSide)
            && Move(cfg, n, ServerSide)
               == if |u.name| == 0 then Net(AwaitVerdict, ServerFailed(AuthFailed), u.name + PasswordPart(u), [1, 1])
                  else Net(AwaitVerdict, Name(|u.name|), u.name + PasswordPart(u), [])
  {
    hide AuthMessage;
    AuthMessageParts(u);
  }

  lemma NameMove(cfg: Config, u: User)
    ensures var n := Net(AwaitVerdict, Name(|u.name|), u.name + PasswordPart(u), []);
            CanMove(n, ServerSide) && Move(cfg, n, ServerSide) == Net(AwaitVerdict, PasswordLength(u.name), PasswordPart(u), [])
  {
    hide PasswordPart;
    var all := u.name + PasswordPart(u);
    assert all[..|u.name|] == u.name && all[|u.name|..] == PasswordPart(u);
  }

  lemma PasswordLengthMove(cfg: Config, u: User)
    requires |u.password| <= 255
    ensures var n := Net(AwaitVerdict, PasswordLength(u.name), PasswordPart(u), []);
            CanMove(n, ServerSide)
            && Move(cfg, n, ServerSide)
               == if |u.password| == 0 then Net(AwaitVerdict, ServerFailed(AuthFailed), u.password, [1, 1])
                  else Net(AwaitVerdict, Password(u.name, |u.password|), u.password, [])
  {
    assert PasswordPart(u)[1..] == u.password;
  }

  lemma PasswordMove(cfg: Config, u: User)
    requires cfg.server.verify.Some?
    ensures var n := Net(AwaitVerdict, Password(u.name, |u.password|), u.password, []);
            CanMove(n, ServerSide)
            && Move(cfg, n, ServerSide)
               == if cfg.server.verify.value(u) then Net(AwaitVerdict, Request, [], [1, 0])
                  else Net(AwaitVerdict, ServerFailed(AuthFailed), [], [1, 1])
  {
    assert u.password[..|u.password|] == u.password && u.password[|u.password|..] == [];
    assert User(u.name, u.password) == u;
  }

  lemma VerdictMove(cfg: Config, s: Server)
    ensures var n := Net(AwaitVerdict, s, [], [1, 0]);
            CanMove(n, ClientSide) && Move(cfg, n, ClientSide) == Net(AwaitReply, s, RequestMessage(cfg.client), [])
  {
  }

  lemma AuthenticatingMoves(cfg: Config, n: Net, side: Side)
    requires LengthsFit(cfg) && Authenticating(cfg, n) && CanMove(n, side)
    ensures Inv(cfg, Move(cfg, n, side)) && Rank(Move(cfg, n, side)) < Rank(n)
  {
    hide AuthMessage, Negotiating, Answering, Partial, RequestMessage, Move, ServerReads, ClientReads;
    var u := cfg.client.user.value;
    if n.server.AuthHeader? { HeaderMove(cfg, u); }
    else if n.server.Name? { NameMove(cfg, u); }
    else if n.server.PasswordLength? { PasswordLengthMove(cfg, u); }
    else if n.server.Password? { PasswordMove(cfg, u); }
    else { VerdictMove(cfg, n.server); }
  }

  /** One read of an address: either it is complete and nothing follows, or there is more to read. */
  lemma PartialRead(got: Bytes, rest: Bytes, addr: Bytes)
    requires Partial(got, rest, addr) && AddrNeeds(got) <= |rest|
    ensures var k := AddrNeeds(got);
            var all := got + rest[..k];
            0 < k
            && (WellFormed(all) ==> all == addr && rest[k..] == [])
            && (!WellFormed(all) ==> AddrNeeds(all) > 0 && |all| == |got| + 1 && Partial(all, rest[k..], addr))
  {
    var k := AddrNeeds(got);
    var all := got + rest[..k];
    assert all + rest[k..] == addr;
    assert addr[..|all|] == all;
    if |got| > 0 {
      assert got[0] == addr[0] == all[0];
    }
  }

  lemma RequestingMoves(cfg: Config, n: Net, side: Side)
    requires LengthsFit(cfg) && Requesting(cfg, n) && CanMove(n, side)
    ensures Inv(cfg, Move(cfg, n, side)) && Rank(Move(cfg, n, side)) < Rank(n)
  {
    hide Partial, AddrNeeds, WellFormed;
    if n.server.Request? {
      var m := RequestMessage(cfg.client);
      assert m[..3] == [5, cfg.client.command, 0] && m[3..] == cfg.client.addr;
      PartialStart(cfg.client.addr);
    } else {
      PartialNeeds(n.server.got, n.toServer, cfg.client.addr);
      PartialRead(n.server.got, n.toServer, cfg.client.addr);
    }
  }

  lemma PartialStart(addr: Addr)
    ensures Partial([], addr, addr)
  {
    assert [] + addr == addr;
  }

  /** A reader of a partial address is never left waiting: what it asks for is under way. */
  lemma PartialNeeds(got: Bytes, rest: Bytes, addr: Bytes)
    requires Partial(got, rest, addr)
    ensures AddrNeeds(got) <= |rest| && |got| <= 2
  {
    if |got| > 0 {
      assert got[0] == addr[0];
    }
    if |got| > 1 {
      assert got[1] == addr[1];
    }
  }

  lemma AnsweringMoves(cfg: Config, n: Net, side: Side)
    requires LengthsFit(cfg) && Answering(cfg, n) && CanMove(n, side)
    ensures Inv(cfg, Move(cfg, n, side)) && Rank(Move(cfg, n, side)) < Rank(n)
  {
    hide Partial, AddrNeeds, WellFormed;
    var local := cfg.server.local.value;
    if n.client.AwaitReply? {
      assert ([5, 0, 0] + local)[..3] == [5, 0, 0] && ([5, 0, 0] + local)[3..] == local;
      PartialStart(local);
    } else if n.client.Bound? {
      PartialNeeds(n.client.got, n.toClient, local);
      PartialRead(n.client.got, n.toClient, local);
    }
  }

  lemma RejectedMove(cfg: Config, s: Server, toServer: Bytes)
    ensures var n := Net(AwaitVerdict, s, toServer, [1, 1]);
            CanMove(n, ClientSide) && Move(cfg, n, ClientSide) == Net(ClientFailed(Rejected), s, toServer, [])
  {
  }

  /** The only move left is the client's, on reading that it was rejected. */
  lemma DoomedMoves(cfg: Config, n: Net, side: Side)
    requires Doomed(cfg, n) && CanMove(n, side)
    ensures Doomed(cfg, Move(cfg, n, side)) && Rank(Move(cfg, n, side)) < Rank(n)
  {
    hide Accepts, Move, AddrNeeds;
    assert side.ClientSide? && n.client.AwaitVerdict?;
    RejectedMove(cfg, n.server, n.toServer);
  }

  lemma MovesKeepInv(cfg: Config, n: Net, side: Side)
    requires LengthsFit(cfg) && Inv(cfg, n) && CanMove(n, side)
    ensures Inv(cfg, Move(cfg, n, side)) && Rank(Move(cfg, n, side)) < Rank(n)
  {
    hide Negotiating, Authenticating, Requesting, Answering, Doomed, Move, Rank, CanMove;
    if Negotiating(cfg, n) { NegotiatingMoves(cfg, n, side); }
    else if Authenticating(cfg, n) { AuthenticatingMoves(cfg, n, side); }
    else if Requesting(cfg, n) { RequestingMoves(cfg, n, side); }
    else if Answering(cfg, n) { AnsweringMoves(cfg, n, side); }
    else { DoomedMoves(cfg, n, side); }
  }

  /** How many reads are left at most. */
  function Rank(n: Net): int { ServerRank(n.server) + ClientRank(n.client) }

  function ServerRank(s: Server): int {
    match s
    case Greeting => 12
    case Methods(_) => 11
    case AuthHeader => 10
    case Name(_) => 9
    case PasswordLength(_) => 8
    case Password(_, _) => 7
    case Request => 6
    case Target(_, got) => 5 - |got|
    case Served(_, _) => 0
    case ServerFailed(_) => 0
  }

  function ClientRank(c: Client): int {
    match c
    case Begin => 8
    case AwaitMethod => 7
    case AwaitVerdict => 6
    case AwaitReply => 5
    case Bound(got) => 4 - |got|
    case Connected(_) => 0
    case ClientFailed(_) => 0
  }

  /** Where a run that cannot go on has got to. */
  lemma WhereItEnds(cfg: Config, n: Net)
    requires LengthsFit(cfg) && Inv(cfg, n) && !CanMove(n, ClientSide) && !CanMove(n, ServerSide)
    ensures if Accepts(cfg) then
              n == Net(Connected(cfg.server.local.value), Served(cfg.client.command, cfg.client.addr), [], [])
            else n.client.ClientFailed? || n.server.ServerFailed?
  {
    hide Partial, AddrNeeds, WellFormed, AuthMessage;
    if cfg.server.verify.Some? && cfg.client.user.Some? { AuthMessageParts(cfg.client.user.value); }
    if n.server.Target? && Requesting(cfg, n) { PartialNeeds(n.server.got, n.toServer, cfg.client.addr); }
    if n.client.Bound? && Answering(cfg, n) { PartialNeeds(n.client.got, n.toClient, cfg.server.local.value); }
  }

  lemma RankIsNatural(cfg: Config, n: Net)
    requires Inv(cfg, n)
    ensures Rank(n) >= 0
  {
  }

  ghost predicate Run(cfg: Config, nets: seq<Net>, sides: seq<Side>) {
    |nets| == |sides| + 1 && nets[0] == START
    && forall i :: 0 <= i < |sides| ==> CanMove(nets[i], sides[i]) && nets[i + 1] == Move(cfg, nets[i], sides[i])
  }

  lemma {:induction false} RunsKeepInv(cfg: Config, nets: seq<Net>, sides: seq<Side>)
    requires LengthsFit(cfg) && Run(cfg, nets, sides)
    ensures Inv(cfg, nets[|sides|]) && Rank(nets[|sides|]) + |sides| <= 20
    decreases |sides|
  {
    hide Move, CanMove;
    if |sides| > 0 {
      var n := |sides| - 1;
      assert Run(cfg, nets[..|sides|], sides[..n]);
      RunsKeepInv(cfg, nets[..|sides|], sides[..n]);
      assert CanMove(nets[n], sides[n]);
      MovesKeepInv(cfg, nets[n], sides[n]);
    }
  }

  /** However the two sides take turns, a handshake is over after at most twenty reads, and then both
      sides have succeeded exactly when the user is accepted, the command is supported and the server
      has an address to give: the server then has the client's command and address, the client has the
      server's address, and no byte is left unread in either direction. Otherwise one side has failed. */
  lemma HandshakeSucceedsIffAccepted(cfg: Config, nets: seq<Net>, sides: seq<Side>)
    requires LengthsFit(cfg) && Run(cfg, nets, sides)
    ensures |sides| <= 20
    ensures var n := nets[|sides|];
            !CanMove(n, ClientSide) && !CanMove(n, ServerSide) ==>
              (BothSucceeded(n) <==> Accepts(cfg))
              && (Accepts(cfg) ==> n == Net(Connected(cfg.server.local.value), Served(cfg.client.command, cfg.client.addr), [], []))
              && (!Accepts(cfg) ==> n.client.ClientFailed? || n.server.ServerFailed?)
  {
    hide Move, CanMove, Inv, Accepts, Rank;
    RunsKeepInv(cfg, nets, sides);
    var n := nets[|sides|];
    RankIsNatural(cfg, n);
    if !CanMove(n, ClientSide) && !CanMove(n, ServerSide) {
      WhereItEnds(cfg, n);
    }
  }

  // ---------- Lengths beyond those of RFC 1929 ----------

  /** The server is about to ask its verifier about the very user the client was given. */
  predicate Asks(cfg: Config, n: Net, side: Side) {
    side.ServerSide? && n.server.Password? && CanMove(n, side) && cfg.server.verify.Some?
    && cfg.client.user == Some(User(n.server.name, n.toServer[..n.server.count]))
  }

  /** One byte says how long a name or a password is, and it may not be 0. */
  predicate Bounded(s: Server) {
    match s
    case Name(n) => 0 < n <= 255
    case PasswordLength(name) => 0 < |name| <= 255
    case Password(name, n) => 0 < |name| <= 255 && 0 < n <= 255
    case _ => true
  }

  lemma {:induction false} RunsAreBounded(cfg: Config, nets: seq<Net>, sides: seq<Side>, i: nat)
    requires Run(cfg, nets, sides) && i <= |sides|
    ensures Bounded(nets[i].server)
    decreases i
  {
    if i > 0 {
      RunsAreBounded(cfg, nets, sides, i - 1);
      assert CanMove(nets[i - 1], sides[i - 1]) && nets[i] == Move(cfg, nets[i - 1], sides[i - 1]);
      MovesKeepBounds(cfg, nets[i - 1], sides[i - 1]);
    }
  }

  lemma MovesKeepBounds(cfg: Config, n: Net, side: Side)
    requires Bounded(n.server) && CanMove(n, side)
    ensures Bounded(Move(cfg, n, side).server)
  {
    hide AddrNeeds, WellFormed, AuthMessage, RequestMessage, ClientReads;
  }

  predicate Sendable(u: User) { 1 <= |u.name| <= 255 && 1 <= |u.password| <= 255 }

  /** Not yet past the question. */
  predicate Before(cfg: Config, n: Net) {
    Negotiating(cfg, n) || (Authenticating(cfg, n) && !n.server.Request?)
  }

  lemma NegotiatingGoesOn(cfg: Config, n: Net, side: Side)
    requires cfg.server.verify.Some? && cfg.client.user.Some? && Negotiating(cfg, n) && CanMove(n, side)
    ensures Before(cfg, Move(cfg, n, side))
  {
    hide AuthMessage;
    GreetingMoves(cfg);
  }

  lemma AuthenticatingGoesOn(cfg: Config, n: Net, side: Side)
    requires cfg.client.user.Some? && Sendable(cfg.client.user.value)
    requires Authenticating(cfg, n) && !n.server.Request? && CanMove(n, side)
    ensures Asks(cfg, n, side) || Before(cfg, Move(cfg, n, side))
  {
    hide AuthMessage, PasswordPart, Negotiating, Move, ServerReads, ClientReads;
    var u := cfg.client.user.value;
    assert side.ServerSide?;
    if n.server.AuthHeader? { HeaderMove(cfg, u); }
    else if n.server.Name? { NameMove(cfg, u); }
    else if n.server.PasswordLength? { PasswordLengthMove(cfg, u); }
    else {
      assert n.toServer[..|u.password|] == u.password && User(u.name, u.password) == u;
    }
  }

  lemma BeforeIsNotTheEnd(cfg: Config, n: Net)
    requires cfg.server.verify.Some? && cfg.client.user.Some? && Sendable(cfg.client.user.value) && Before(cfg, n)
    ensures CanMove(n, ClientSide) || CanMove(n, ServerSide)
  {
    hide AuthMessage, PasswordPart, Move, ServerReads, ClientReads;
    var u := cfg.client.user.value;
    GreetingMoves(cfg);
    HeaderMove(cfg, u);
    NameMove(cfg, u);
    PasswordLengthMove(cfg, u);
    PasswordMove(cfg, u);
  }

  lemma {:induction false} BeforeOrAsked(cfg: Config, nets: seq<Net>, sides: seq<Side>, i: nat)
    requires Run(cfg, nets, sides) && i <= |sides|
    requires cfg.server.verify.Some? && cfg.client.user.Some? && Sendable(cfg.client.user.value)
    ensures Before(cfg, nets[i]) || exists k :: 0 <= k < i && Asks(cfg, nets[k], sides[k])
    decreases i
  {
    hide Negotiating, Authenticating, Asks, Move, CanMove;
    if i == 0 {
      StartIsNegotiating(cfg);
    } else {
      BeforeOrAsked(cfg, nets, sides, i - 1);
      var n, side := nets[i - 1], sides[i - 1];
      assert CanMove(n, side) && nets[i] == Move(cfg, n, side);
      if Negotiating(cfg, n) {
        NegotiatingGoesOn(cfg, n, side);
      } else if Before(cfg, n) {
        AuthenticatingGoesOn(cfg, n, side);
      }
    }
  }

  lemma StartIsNegotiating(cfg: Config)
    ensures Negotiating(cfg, START)
  {
  }

  /** In every run that cannot go on, a server that authenticates has asked its verifier about the
      client's own user exactly when name and password have 1 to 255 bytes each; and in no run at all has
      it asked about a longer one. */
  lemma OwnUserIsAskedIffLengthsFit(cfg: Config, nets: seq<Net>, sides: seq<Side>)
    requires Run(cfg, nets, sides) && cfg.server.verify.Some? && cfg.client.user.Some?
    ensures (exists k :: 0 <= k < |sides| && Asks(cfg, nets[k], sides[k])) ==> Sendable(cfg.client.user.value)
    ensures !CanMove(nets[|sides|], ClientSide) && !CanMove(nets[|sides|], ServerSide) ==>
              ((exists k :: 0 <= k < |sides| && Asks(cfg, nets[k], sides[k])) <==> Sendable(cfg.client.user.value))
  {
    hide Move, Negotiating, Authenticating;
    if k :| 0 <= k < |sides| && Asks(cfg, nets[k], sides[k]) {
      RunsAreBounded(cfg, nets, sides, k);
    }
    if Sendable(cfg.client.user.value) {
      BeforeOrAsked(cfg, nets, sides, |sides|);
      if Before(cfg, nets[|sides|]) {
        BeforeIsNotTheEnd(cfg, nets[|sides|]);
      }
    }
  }

  /** How many bytes of its request the server has read, and the client sent. */
  function Eaten(s: Server): int {
    match s
    case Target(_, got) => 3 + |got|
    case Served(_, addr) => 3 + |addr|
    case _ => 0
  }

  function Asked(cfg: Config, c: Client): int {
    if c.AwaitVerdict? then 0 else 3 + |cfg.client.addr|
  }

  /** The server has settled who the user is, but there is more for it to read than a request. */
  predicate Surplus(cfg: Config, n: Net) {
    (n.server.Request? || n.server.Target? || n.server.Served?)
    && (n.client.AwaitVerdict? || n.client.AwaitReply? || n.client.Bound? || n.client.Connected?)
    && |n.toServer| + Eaten(n.server) > Asked(cfg, n.client)
  }

  /** The server is reading a name or a password that is longer than it is told. */
  predicate Overlong(cfg: Config, n: Net)
    requires cfg.client.user.Some?
  {
    var u := cfg.client.user.value;
    n.client.AwaitVerdict? && n.toClient == []
    && ((n.server.AuthHeader? && n.toServer == AuthMessage(u))
        || (n.server == Name(|u.name| % 256) && n.toServer == u.name + PasswordPart(u))
        || (n.server.PasswordLength? && LeftOf(u, n.server.name, n.toServer) && (|u.name| <= 255 ==> n.toServer == PasswordPart(u)))
        || (n.server.Password? && LeftOf(u, n.server.name, [0] + n.toServer)
            && n.server.count <= 255 && (|u.name| <= 255 ==> n.server.count == |u.password| % 256)))
  }

  predicate LeftOf(u: User, name: Bytes, rest: Bytes) {
    |name| == |u.name| % 256 && |rest| == |u.name| - |name| + 1 + |u.password|
  }

  /** What holds throughout a run in which a length does not fit. */
  predicate Astray(cfg: Config, n: Net) {
    cfg.server.verify.Some? && cfg.client.user.Some?
    && (Negotiating(cfg, n) || Overlong(cfg, n) || Surplus(cfg, n) || n.server.ServerFailed? || n.client.ClientFailed?)
  }

  lemma OverlongHead(cfg: Config, u: User)
    ensures var n := Net(AwaitVerdict, AuthHeader, AuthMessage(u), []);
            CanMove(n, ServerSide)
            && Move(cfg, n, ServerSide)
               == if |u.name| % 256 == 0 then Net(AwaitVerdict, ServerFailed(AuthFailed), u.name + PasswordPart(u), [1, 1])
                  else Net(AwaitVerdict, Name(|u.name| % 256), u.name + PasswordPart(u), [])
  {
    hide PasswordPart;
    var m := AuthMessage(u);
    assert m == [1, |u.name| % 256] + (u.name + PasswordPart(u));
    assert m[..2] == [1, |u.name| % 256] && m[2..] == u.name + PasswordPart(u);
  }

  lemma OverlongMoves(cfg: Config, n: Net, side: Side)
    requires Astray(cfg, n) && !LengthsFit(cfg) && Overlong(cfg, n) && CanMove(n, side)
    ensures Astray(cfg, Move(cfg, n, side))
  {
    var u := cfg.client.user.value;
    assert side.ServerSide?;
    if n.server.AuthHeader? {
      hide Negotiating, Move, ServerReads, ClientReads, AuthMessage, LeftOf, AddrNeeds, WellFormed;
      OverlongHead(cfg, u);
    } else {
      hide Negotiating, ClientReads, AuthMessage, AddrNeeds, WellFormed;
      var all := u.name + PasswordPart(u);
      assert |u.name| <= 255 ==> all[|u.name|..] == PasswordPart(u);
    }
  }

  lemma SurplusMoves(cfg: Config, n: Net, side: Side)
    requires Astray(cfg, n) && Surplus(cfg, n) && CanMove(n, side)
    ensures Astray(cfg, Move(cfg, n, side))
  {
    hide Negotiating, Overlong, AddrNeeds, WellFormed;
  }

  lemma FailureStays(cfg: Config, n: Net, side: Side)
    requires CanMove(n, side)
    ensures n.server.ServerFailed? ==> Move(cfg, n, side).server.ServerFailed?
    ensures n.client.ClientFailed? ==> Move(cfg, n, side).client.ClientFailed?
  {
    hide ServerReads, ClientReads;
  }

  lemma {:induction false} RunsStayAstray(cfg: Config, nets: seq<Net>, sides: seq<Side>)
    requires Run(cfg, nets, sides) && !LengthsFit(cfg)
    ensures Astray(cfg, nets[|sides|])
    decreases |sides|
  {
    hide Move, CanMove, Negotiating, Overlong, Surplus;
    StartIsNegotiating(cfg);
    if |sides| > 0 {
      var k := |sides| - 1;
      var n, side := nets[k], sides[k];
      assert Run(cfg, nets[..|sides|], sides[..k]);
      RunsStayAstray(cfg, nets[..|sides|], sides[..k]);
      assert CanMove(n, side);
      if Negotiating(cfg, n) { NegotiatingGoesAstray(cfg, n, side); }
      else if Overlong(cfg, n) { OverlongMoves(cfg, n, side); }
      else if Surplus(cfg, n) { SurplusMoves(cfg, n, side); }
      else { FailureStays(cfg, n, side); }
    }
  }

  lemma NegotiatingGoesAstray(cfg: Config, n: Net, side: Side)
    requires cfg.server.verify.Some? && cfg.client.user.Some? && Negotiating(cfg, n) && CanMove(n, side)
    ensures Astray(cfg, Move(cfg, n, side))
  {
    hide AuthMessage, Move, ServerReads, ClientReads, PasswordPart, LeftOf, AddrNeeds, WellFormed;
    GreetingMoves(cfg);
  }

  /** Whoever reads an address has at most two bytes of it before the rest, and asks for something. */
  predicate ReadsOn(n: Net) {
    (n.server.Target? ==> |n.server.got| <= 2 && AddrNeeds(n.server.got) > 0)
    && (n.client.Bound? ==> |n.client.got| <= 2 && AddrNeeds(n.client.got) > 0)
  }

  lemma AddressGrows(got: Bytes, more: Bytes)
    requires |got| <= 2 && AddrNeeds(got) == |more| > 0
    ensures AddrNeeds(got + more) == 0 || |got| < |got + more| <= 2
  {
    assert (got + more)[0] == if got == [] then more[0] else got[0];
  }

  lemma MovesGoOn(cfg: Config, n: Net, side: Side)
    requires ReadsOn(n) && CanMove(n, side)
    ensures ReadsOn(Move(cfg, n, side)) && Rank(Move(cfg, n, side)) < Rank(n)
  {
    hide WellFormed, AuthMessage, RequestMessage;
    if side.ServerSide? && n.server.Target? {
      AddressGrows(n.server.got, n.toServer[..AddrNeeds(n.server.got)]);
    } else if side.ClientSide? && n.client.Bound? {
      AddressGrows(n.client.got, n.toClient[..AddrNeeds(n.client.got)]);
    }
  }

  /** Every run ends, whatever the lengths. */
  lemma {:induction false} RunsAreShort(cfg: Config, nets: seq<Net>, sides: seq<Side>)
    requires Run(cfg, nets, sides)
    ensures ReadsOn(nets[|sides|]) && 0 <= Rank(nets[|sides|]) <= 20 - |sides|
    decreases |sides|
  {
    hide Move, CanMove;
    if |sides| > 0 {
      var k := |sides| - 1;
      assert Run(cfg, nets[..|sides|], sides[..k]);
      RunsAreShort(cfg, nets[..|sides|], sides[..k]);
      assert CanMove(nets[k], sides[k]);
      MovesGoOn(cfg, nets[k], sides[k]);
    }
  }

  /** Both sides have what they wanted: the server the client's command and address, the client the
      server's address, and no byte is left unread. */
  predicate Complete(cfg: Config, n: Net) {
    cfg.server.local.Some? && n == Net(Connected(cfg.server.local.value), Served(cfg.client.command, cfg.client.addr), [], [])
  }

  /** For all lengths: every run is over after at most twenty reads, and one that cannot go on has
      completed the handshake exactly when the user is accepted, the request can be served, and name and
      password, if they are sent, are no longer than their length bytes can say. */
  lemma CompleteIffAcceptedAndLengthsFit(cfg: Config, nets: seq<Net>, sides: seq<Side>)
    requires Run(cfg, nets, sides)
    ensures |sides| <= 20
    ensures var n := nets[|sides|];
            !CanMove(n, ClientSide) && !CanMove(n, ServerSide) ==>
              (Complete(cfg, n) <==> Accepts(cfg) && LengthsFit(cfg))
  {
    hide Move, CanMove, LengthsFit, Rank;
    RunsAreShort(cfg, nets, sides);
    if LengthsFit(cfg) {
      HandshakeSucceedsIffAccepted(cfg, nets, sides);
    } else {
      RunsStayAstray(cfg, nets, sides);
    }
  }

  /** The one run there is when the length byte of the name is 0. */
  function Refusal(u: User): (nets: seq<Net>)
    ensures |nets| == 7
  {
    var unread := u.name + PasswordPart(u);
    [START, Net(AwaitMethod, Greeting, [5, 1, 2], []), Net(AwaitMethod, Methods(1), [2], []),
     Net(AwaitMethod, AuthHeader, [], [5, 2]), Net(AwaitVerdict, AuthHeader, AuthMessage(u), []),
     Net(AwaitVerdict, ServerFailed(AuthFailed), unread, [1, 1]), Net(ClientFailed(Rejected), ServerFailed(AuthFailed), unread, [])]
  }

  lemma RefusalGoesOn(cfg: Config, i: nat, side: Side)
    requires cfg.client.user.Some? && cfg.server.verify.Some? && |cfg.client.user.value.name| % 256 == 0 && i < 7
    ensures var nets := Refusal(cfg.client.user.value);
            CanMove(nets[i], side) ==> i < 6 && Move(cfg, nets[i], side) == nets[i + 1]
    ensures var n := Refusal(cfg.client.user.value)[i];
            i < 6 ==> CanMove(n, ClientSide) || CanMove(n, ServerSide)
  {
    hide AuthMessage, PasswordPart;
    var u := cfg.client.user.value;
    GreetingMoves(cfg);
    OverlongHead(cfg, u);
    RejectedMove(cfg, ServerFailed(AuthFailed), u.name + PasswordPart(u));
  }

  /** A name whose length byte is 0, for being empty or a multiple of 256 long, is refused in every run,
      whatever the verifier says: after six reads both sides have failed. */
  lemma {:induction false} LongNamesAreRefused(cfg: Config, nets: seq<Net>, sides: seq<Side>)
    requires Run(cfg, nets, sides)
    requires cfg.client.user.Some? && cfg.server.verify.Some? && |cfg.client.user.value.name| % 256 == 0
    ensures var n := nets[|sides|];
            !CanMove(n, ClientSide) && !CanMove(n, ServerSide) ==>
              n.server == ServerFailed(AuthFailed) && n.client == ClientFailed(Rejected)
    ensures |sides| <= 6 && nets[|sides|] == Refusal(cfg.client.user.value)[|sides|]
    decreases |sides|
  {
    hide Move, CanMove;
    var k := |sides|;
    if k > 0 {
      assert Run(cfg, nets[..k], sides[..k - 1]);
      LongNamesAreRefused(cfg, nets[..k], sides[..k - 1]);
      assert CanMove(nets[k - 1], sides[k - 1]) && nets[k] == Move(cfg, nets[k - 1], sides[k - 1]);
      RefusalGoesOn(cfg, k - 1, sides[k - 1]);
    }
    RefusalGoesOn(cfg, k, ClientSide);
  }

  lemma GreetingMoves(cfg: Config)
    requires cfg.client.user.Some? && cfg.server.verify.Some?
    ensures CanMove(START, ClientSide) && Move(cfg, START, ClientSide) == Net(AwaitMethod, Greeting, [5, 1, 2], [])
    ensures var n := Net(AwaitMethod, Greeting, [5, 1, 2], []);
            CanMove(n, ServerSide) && Move(cfg, n, ServerSide) == Net(AwaitMethod, Methods(1), [2], [])
    ensures var n := Net(AwaitMethod, Methods(1), [2], []);
            CanMove(n, ServerSide) && Move(cfg, n, ServerSide) == Net(AwaitMethod, AuthHeader, [], [5, 2])
    ensures var n := Net(AwaitMethod, AuthHeader, [], [5, 2]);
            CanMove(n, ClientSide)
            && Move(cfg, n, ClientSide) == Net(AwaitVerdict, AuthHeader, AuthMessage(cfg.client.user.value), [])
  {
    hide AuthMessage;
    assert [5, 1, 2][..2] == [5, 1] && [5, 1, 2][2..] == [2];
  }

  // ---------- What crosses the wire ----------

  /** What a side writes in its next move. */
  function Out(cfg: Config, n: Net, side: Side): Bytes
    requires CanMove(n, side)
  {
    if side.ClientSide? then ClientReads(cfg.client, n.client, n.toClient[..ClientNeeds(n.client).value]).1
    else ServerReads(cfg.server, n.server, n.toServer[..ServerNeeds(n.server).value]).1
  }

  /** All that a side has written in the first `i` moves of a run. */
  ghost function SaidBy(cfg: Config, nets: seq<Net>, sides: seq<Side>, i: nat, side: Side): Bytes
    requires Run(cfg, nets, sides) && i <= |sides|
    decreases i
  {
    if i == 0 then []
    else
      assert CanMove(nets[i - 1], sides[i - 1]);
      SaidBy(cfg, nets, sides, i - 1, side) + if sides[i - 1] == side then Out(cfg, nets[i - 1], side) else []
  }

  function Greets(cfg: Config): Bytes { [5, 1, if cfg.client.user.Some? then 2 else 0] }

  function Authenticates(cfg: Config): Bytes {
    if cfg.server.verify.Some? && cfg.client.user.Some? then AuthMessage(cfg.client.user.value) else []
  }

  function ClientSaid(cfg: Config, c: Client): Bytes {
    if c.Begin? then [] else if c.AwaitMethod? then Greets(cfg)
    else if c.AwaitVerdict? then Greets(cfg) + Authenticates(cfg)
    else Greets(cfg) + Authenticates(cfg) + RequestMessage(cfg.client)
  }

  function Chooses(cfg: Config): Bytes { if cfg.server.verify.Some? then [5, 2] else [5, 0] }

  function Verdict(cfg: Config): Bytes { if cfg.server.verify.Some? then [1, 0] else [] }

  function ServerSaid(cfg: Config, s: Server): Bytes {
    match s
    case Greeting => []
    case Methods(_) => []
    case Request => Chooses(cfg) + Verdict(cfg)
    case Target(_, _) => Chooses(cfg) + Verdict(cfg)
    case Served(_, _) => if cfg.server.local.Some? then Chooses(cfg) + Verdict(cfg) + ([5, 0, 0] + cfg.server.local.value) else []
    case _ => Chooses(cfg)
  }

  lemma ClientKeepsToScript(cfg: Config, n: Net)
    requires Inv(cfg, n) && CanMove(n, ClientSide)
    ensures var t := Move(cfg, n, ClientSide);
            t.server == n.server
            && (t.client.ClientFailed? || ClientSaid(cfg, n.client) + Out(cfg, n, ClientSide) == ClientSaid(cfg, t.client))
  {
    hide AddrNeeds, WellFormed, AuthMessage, RequestMessage, Answering, Requesting, Doomed, Partial, ServerReads;
    InvAtMethod(cfg, n);
  }

  /** When the client looks at the method, it is the one the server has chosen. */
  lemma InvAtMethod(cfg: Config, n: Net)
    requires Inv(cfg, n)
    ensures n.client.AwaitMethod? ==> n.toClient == [] || n.toClient == Chooses(cfg)
  {
    hide AddrNeeds, WellFormed, AuthMessage, RequestMessage, Partial;
  }

  lemma ServerKeepsToScript(cfg: Config, n: Net)
    requires Inv(cfg, n) && CanMove(n, ServerSide)
    ensures var t := Move(cfg, n, ServerSide);
            t.client == n.client
            && (t.server.ServerFailed? || ServerSaid(cfg, n.server) + Out(cfg, n, ServerSide) == ServerSaid(cfg, t.server))
  {
    hide AddrNeeds, WellFormed, AuthMessage, RequestMessage, Inv, ClientReads;
    InvWhileAuthenticating(cfg, n);
  }

  lemma InvWhileAuthenticating(cfg: Config, n: Net)
    requires Inv(cfg, n) && CanMove(n, ServerSide)
    ensures n.server.AuthHeader? || n.server.Name? || n.server.PasswordLength? || n.server.Password? ==> cfg.server.verify.Some?
  {
    hide AddrNeeds, WellFormed, AuthMessage, RequestMessage, Partial;
  }

  lemma {:induction false} KeptToScript(cfg: Config, nets: seq<Net>, sides: seq<Side>, i: nat)
    requires LengthsFit(cfg) && Run(cfg, nets, sides) && i <= |sides|
    ensures Inv(cfg, nets[i])
    ensures nets[i].client.ClientFailed? || SaidBy(cfg, nets, sides, i, ClientSide) == ClientSaid(cfg, nets[i].client)
    ensures nets[i].server.ServerFailed? || SaidBy(cfg, nets, sides, i, ServerSide) == ServerSaid(cfg, nets[i].server)
    decreases i
  {
    hide Move, CanMove, Inv, ClientSaid, ServerSaid, Out;
    if i == 0 {
      NothingSaid(cfg);
    } else {
      var n, side := nets[i - 1], sides[i - 1];
      KeptToScript(cfg, nets, sides, i - 1);
      assert CanMove(n, side) && nets[i] == Move(cfg, n, side);
      MovesKeepInv(cfg, n, side);
      FailureStays(cfg, n, side);
      if side.ClientSide? { ClientKeepsToScript(cfg, n); } else { ServerKeepsToScript(cfg, n); }
    }
  }

  lemma NothingSaid(cfg: Config)
    ensures Inv(cfg, START) && ClientSaid(cfg, Begin) == [] && ServerSaid(cfg, Greeting) == []
  {
  }

  /** The handshake on the wire: in every run that completes it, whatever the lengths, the client has sent
      its greeting, name and password if the server asks for them, and its request; and the server the method,
      its verdict if it asked, and its reply. */
  lemma HandshakeOnTheWire(cfg: Config, nets: seq<Net>, sides: seq<Side>)
    requires Run(cfg, nets, sides) && Complete(cfg, nets[|sides|])
    ensures SaidBy(cfg, nets, sides, |sides|, ClientSide)
            == [5, 1, if cfg.client.user.Some? then 2 else 0]
               + (if cfg.server.verify.None? || cfg.client.user.None? then []
                  else var u := cfg.client.user.value; [1, |u.name| % 256] + u.name + ([|u.password| % 256] + u.password))
               + ([5, cfg.client.command, 0] + cfg.client.addr)
    ensures SaidBy(cfg, nets, sides, |sides|, ServerSide)
            == (if cfg.server.verify.Some? then [5, 2] else [5, 0]) + (if cfg.server.verify.Some? then [1, 0] else [])
               + ([5, 0, 0] + cfg.server.local.value)
  {
    hide Move, Inv, Accepts, Run, SaidBy;
    CompleteIffAcceptedAndLengthsFit(cfg, nets, sides);
    KeptToScript(cfg, nets, sides, |sides|);
  }
}
