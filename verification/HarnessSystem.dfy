/** Server, clients and any other programs together, over channels that keep order and may be cut off at any time. */
module HarnessSystem {
  import opened HarnessWire
  import Client = HarnessClient
  import Server = HarnessServer
  import opened Prelude

  datatype Party = Harness(state: Client.State) | Stranger(lines: seq<Line>)

  /** Each direction is a log and a cursor: `heard` lines of the party have been read, and `got` replies to it. */
  datatype Link = Link(party: Party, heard: nat, got: nat)

  /** `origin` is a history: which line of its connection each request was. */
  datatype System = System(server: Server.State, links: seq<Link>, origin: seq<nat>)

  datatype Action =
    | Connect(peer: string, own: bool)
    | Begin(link: nat, ask: Ask)
    | Say(link: nat, line: Line)
    | ServerReads(link: nat)
    | PartyReads(link: nat)
    | PartyDies(link: nat)
    | PartyCloses(link: nat)
    | ServerDoes(action: Server.Action)

  const INITIAL := System(Server.INITIAL, [], [])

  function Spoken(p: Party): nat {
    if p.Harness? then |p.state.sent| else |p.lines|
  }

  function Line(p: Party, i: nat): Line
    requires i < Spoken(p)
  {
    if p.Harness? then p.state.sent[i].line else p.lines[i]
  }

  function Act(p: Party, a: Client.Action): Party {
    if p.Harness? then Harness(Client.Next(p.state, a)) else p
  }

  predicate HasLine(s: System, link: nat) {
    link < |s.links| && s.links[link].heard < Spoken(s.links[link].party)
  }

  predicate HasReply(s: System, link: nat) {
    link < |s.links| && link in s.server.output && s.links[link].got < |s.server.output[link]|
  }

  function WithParty(s: System, link: nat, p: Party): System
    requires link < |s.links|
  {
    s.(links := s.links[link := s.links[link].(party := p)])
  }

  function Connected(s: System, peer: string, own: bool): System {
    if !s.server.accepting || |s.links| in s.server.names then s
    else
      s.(server := Server.Next(s.server, Server.Connect(|s.links|, peer)),
         links := s.links + [Link(if own then Harness(Client.INITIAL) else Stranger([]), 0, 0)])
  }

  function Taken(s: System, link: nat): System
    requires HasLine(s, link)
  {
    var at := s.links[link].heard;
    var line := Line(s.links[link].party, at);
    if link !in s.server.names then s
    else
      s.(server := Server.Next(s.server, Server.Read(link, line)),
         links := s.links[link := s.links[link].(heard := at + 1)],
         origin := if line.Request? then s.origin + [at] else s.origin)
  }

  function Given(s: System, link: nat): System
    requires HasReply(s, link)
  {
    var l := s.links[link];
    var w := s.server.output[link][l.got];
    s.(links := s.links[link := Link(Act(l.party, Client.Hear(Key(w.id), w.reply)), l.heard, l.got + 1)])
  }

  /** One step of the whole. An action that cannot occur changes nothing. */
  function Next(s: System, a: Action): System {
    match a
    case Connect(peer, own) => Connected(s, peer, own)
    case Begin(link, ask) =>
      if link < |s.links| then WithParty(s, link, Act(s.links[link].party, Client.Exchange(ask))) else s
    case Say(link, line) =>
      if link < |s.links| && s.links[link].party.Stranger?
      then WithParty(s, link, Stranger(s.links[link].party.lines + [line])) else s
    case ServerReads(link) => if HasLine(s, link) then Taken(s, link) else s
    case PartyReads(link) => if HasReply(s, link) then Given(s, link) else s
    case PartyDies(link) =>
      if link < |s.links| then WithParty(s, link, Act(s.links[link].party, Client.Die)) else s
    case PartyCloses(link) =>
      if link < |s.links| then WithParty(s, link, Act(s.links[link].party, Client.Close)) else s
    case ServerDoes(action) =>
      if action.Connect? || action.Read? then s else s.(server := Server.Next(s.server, action))
  }

  function Run(s: System, actions: seq<Action>): System
    decreases |actions|
  {
    if actions == [] then s else Run(Next(s, actions[0]), actions[1..])
  }

  // ---------------------------------------------------------------- the invariant

  ghost predicate ServerSound(s: System) {
    && Server.Correlated(s.server) && Server.Routed(s.server) && Server.AnsweredOnce(s.server)
    && (forall k: nat :: k in s.server.names <==> k < |s.links|)
  }

  ghost predicate ClientsSound(s: System) {
    forall l :: 0 <= l < |s.links| && s.links[l].party.Harness? ==> Client.Kept(s.links[l].party.state)
  }

  /** The cursors lie within the logs. */
  ghost predicate InOrder(s: System) {
    forall l :: 0 <= l < |s.links| ==>
      && s.links[l].heard <= Spoken(s.links[l].party)
      && (l in s.server.output ==> s.links[l].got <= |s.server.output[l]|)
  }

  /** Whether request `k + 1` is what line `origin[k]` of its connection says. */
  predicate IsFrom(s: System, k: nat) {
    && k < |s.origin| && k < |s.server.asked|
    && var source := s.server.asked[k];
    && source.socket < |s.links|
    && s.origin[k] < s.links[source.socket].heard
    && s.origin[k] < Spoken(s.links[source.socket].party)
    && Line(s.links[source.socket].party, s.origin[k]) == Request(source.id, source.ask)
  }

  /** Each request comes from one line of its connection, and no line makes two. */
  ghost predicate Traced(s: System) {
    && |s.origin| == |s.server.asked|
    && (forall k: nat :: k < |s.origin| ==> IsFrom(s, k))
    && (forall j: nat, k: nat :: j < k < |s.origin| && s.server.asked[j].socket == s.server.asked[k].socket ==>
          s.origin[j] < s.origin[k])
  }

  /**
   Whether the `i`-th line written to the connection is the reply `r` to the request
   that the exchange `e` of its client made.
   */
  ghost predicate Answers(s: System, link: nat, e: nat, i: nat, r: Reply) {
    && link < |s.links| && s.links[link].party.Harness?
    && link in s.server.output && i < |s.server.output[link]| && i < s.links[link].got
    && s.server.output[link][i].reply == r
    && var k := s.server.output[link][i].request - 1;
    && 0 <= k < |s.origin| && k < |s.server.asked| && s.server.asked[k].socket == link
    && s.origin[k] < |s.links[link].party.state.sent|
    && s.links[link].party.state.sent[s.origin[k]].exchange == e
  }

  /** Whether the promise of exchange `e` was resolved with `r`. */
  predicate SettledWith(s: System, link: nat, e: nat, r: Reply) {
    && link < |s.links| && s.links[link].party.Harness?
    && e < |s.links[link].party.state.settled| && s.links[link].party.state.settled[e] == [r]
  }

  /** Whether that is an answer the client did not make up itself. */
  ghost predicate FromALine(s: System, link: nat, e: nat, r: Reply) {
    SettledWith(s, link, e, r) && Client.FromALine(s.links[link].party.state, e, r)
  }

  /** Every answer that the client did not make up is the broker's to that very exchange. */
  ghost predicate Genuine(s: System) {
    forall link: nat, e: nat, r :: FromALine(s, link, e, r) ==> exists i: nat :: Answers(s, link, e, i, r)
  }

  /** Whether the exchange has this answer, or was refused because the socket closed. */
  predicate HasAnswer(s: System, link: nat, e: nat, r: Reply) {
    SettledWith(s, link, e, r) || (SettledWith(s, link, e, Unavailable) && !s.links[link].party.state.attached)
  }

  /** Every reply a client has read is its exchange's answer. */
  ghost predicate Delivered(s: System) {
    forall link: nat, e: nat, i: nat, r :: Answers(s, link, e, i, r) ==> HasAnswer(s, link, e, r)
  }

  ghost predicate Sound(s: System) {
    ServerSound(s) && ClientsSound(s) && InOrder(s) && Traced(s) && Genuine(s) && Delivered(s)
  }

  // ---------------------------------------------------------------- logs only grow

  ghost predicate LinkExtends(l: Link, m: Link) {
    && l.party.Harness? == m.party.Harness?
    && l.heard <= m.heard && l.got <= m.got
    && (l.party.Harness? ==> l.party.state.sent <= m.party.state.sent)
    && (l.party.Stranger? ==> l.party.lines <= m.party.lines)
  }

  ghost predicate ServerExtends(s: Server.State, n: Server.State) {
    && s.asked <= n.asked
    && (forall l :: l in s.output ==> l in n.output && s.output[l] <= n.output[l])
  }

  /** Everything said, written and asked stays as it was; only more is added. */
  ghost predicate Extends(s: System, n: System) {
    && |s.links| <= |n.links| && s.origin <= n.origin
    && ServerExtends(s.server, n.server)
    && (forall l: nat :: l < |s.links| ==> LinkExtends(s.links[l], n.links[l]))
  }

  lemma ServerStepExtends(s: Server.State, a: Server.Action)
    requires Server.Correlated(s)
    ensures ServerExtends(s, Server.Next(s, a))
  {
  }

  lemma ActExtends(l: Link, a: Client.Action)
    ensures LinkExtends(l, l.(party := Act(l.party, a)))
  {
  }

  lemma StepExtends(s: System, a: Action)
    requires ServerSound(s)
    ensures Extends(s, Next(s, a))
  {
    hide Server.Next, Server.Correlated, Server.Routed, Server.AnsweredOnce, Key, Line;
    var n := Next(s, a);
    if n.server != s.server {
      ServerStepExtends(s.server, ServerAction(s, a));
    }
    forall l: nat | l < |s.links|
      ensures LinkExtends(s.links[l], n.links[l])
    {
      if n.links[l] != s.links[l] && s.links[l].party.Harness? && !a.ServerReads? {
        ActExtends(s.links[l], ClientAction(s, a));
      }
    }
  }

  /** The step the server takes when the whole takes `a`, if it takes one. */
  function ServerAction(s: System, a: Action): Server.Action {
    match a
    case Connect(peer, _) => Server.Connect(|s.links|, peer)
    case ServerReads(link) =>
      if HasLine(s, link) then Server.Read(link, Line(s.links[link].party, s.links[link].heard)) else Server.Listen
    case ServerDoes(action) => action
    case _ => Server.Listen
  }

  /** The step a client takes when the whole takes `a`, if one does. */
  function ClientAction(s: System, a: Action): Client.Action {
    match a
    case Begin(_, ask) => Client.Exchange(ask)
    case PartyReads(link) =>
      if HasReply(s, link) then
        var w := s.server.output[link][s.links[link].got];
        Client.Hear(Key(w.id), w.reply)
      else Client.Die
    case PartyCloses(_) => Client.Close
    case _ => Client.Die
  }

  lemma AnswersStay(s: System, n: System, link: nat, e: nat, i: nat, r: Reply)
    requires Extends(s, n) && Answers(s, link, e, i, r)
    ensures Answers(n, link, e, i, r)
  {
  }

  lemma TraceStays(s: System, n: System, k: nat)
    requires Extends(s, n) && IsFrom(s, k)
    ensures IsFrom(n, k) && n.origin[k] == s.origin[k] && n.server.asked[k] == s.server.asked[k]
  {
  }

  // ---------------------------------------------------------------- one step

  /** The server of a step is the old one, or one step of its own further. */
  lemma ServerSteps(s: System, a: Action)
    ensures Next(s, a).server == s.server || Next(s, a).server == Server.Next(s.server, ServerAction(s, a))
  {
  }

  lemma StepKeepsNames(s: System, a: Action)
    requires ServerSound(s)
    ensures forall k: nat :: k in Next(s, a).server.names <==> k < |Next(s, a).links|
  {
    hide Server.Next, Server.Correlated, Server.Routed, Server.AnsweredOnce, Act, Line, Key;
    Server.StepNames(s.server, ServerAction(s, a));
  }

  /** The server has a log for every connection. */
  lemma LogsAreKept(s: System, l: nat)
    requires ServerSound(s)
    ensures l in s.server.output <==> l < |s.links|
  {
    assert l in s.server.names <==> l < |s.links|;
  }

  lemma StepKeepsServer(s: System, a: Action)
    requires ServerSound(s)
    ensures ServerSound(Next(s, a))
  {
    ServerSteps(s, a);
    StepKeepsNames(s, a);
    Server.StepCorrelates(s.server, ServerAction(s, a));
    Server.StepRoutes(s.server, ServerAction(s, a));
    Server.StepAnswersOnce(s.server, ServerAction(s, a));
  }

  /** A client of a step is fresh, or took that step; it hears only the reply it was to get. */
  lemma HarnessSteps(s: System, a: Action, l: nat)
    requires var n := Next(s, a);
      l < |n.links| && n.links[l].party.Harness? && !(l < |s.links| && n.links[l].party == s.links[l].party)
    ensures var n := Next(s, a);
      if l >= |s.links| then n.links[l].party == Harness(Client.INITIAL)
      else s.links[l].party.Harness? && n.links[l].party == Act(s.links[l].party, ClientAction(s, a))
    ensures ClientAction(s, a).Hear? ==>
      HasReply(s, l) && Next(s, a) == Given(s, l)
      && var w := s.server.output[l][s.links[l].got]; ClientAction(s, a) == Client.Hear(Key(w.id), w.reply)
  {
    hide Server.Next, Server.Enabled, Client.Next, Key, Line;
  }

  lemma StepKeepsClients(s: System, a: Action)
    requires ClientsSound(s)
    ensures ClientsSound(Next(s, a))
  {
    hide Next, ClientAction;
    var n := Next(s, a);
    forall l | 0 <= l < |n.links| && n.links[l].party.Harness?
      ensures Client.Kept(n.links[l].party.state)
    {
      if l >= |s.links| || n.links[l].party != s.links[l].party {
        HarnessSteps(s, a, l);
        if l < |s.links| { Client.StepKeeps(s.links[l].party.state, ClientAction(s, a)); }
      }
    }
  }

  /** A cursor moves by one line or reply that was there to read. */
  ghost predicate Moved(s: System, n: System, l: nat)
    requires l < |n.links|
  {
    if l < |s.links| then
      && (n.links[l].heard == s.links[l].heard || (HasLine(s, l) && n.links[l].heard == s.links[l].heard + 1))
      && (n.links[l].got == s.links[l].got || (HasReply(s, l) && n.links[l].got == s.links[l].got + 1))
    else n.links[l].heard == 0 && n.links[l].got == 0
  }

  lemma CursorsMove(s: System, a: Action, l: nat)
    requires l < |Next(s, a).links|
    ensures Moved(s, Next(s, a), l)
  {
    hide Act, Line, Key, Server.Next, ServerSound;
  }

  lemma StepKeepsOrder(s: System, a: Action)
    requires ServerSound(s) && InOrder(s)
    ensures InOrder(Next(s, a))
  {
    hide ServerSound, Next;
    StepExtends(s, a);
    var n := Next(s, a);
    forall l | 0 <= l < |n.links|
      ensures n.links[l].heard <= Spoken(n.links[l].party)
      ensures l in n.server.output ==> n.links[l].got <= |n.server.output[l]|
    {
      LogsAreKept(s, l);
      CursorsMove(s, a, l);
    }
  }

  lemma StepKeepsTrace(s: System, a: Action)
    requires ServerSound(s) && Traced(s)
    ensures Traced(Next(s, a))
  {
    hide Server.Next, Server.Enabled, ServerSound, Next, ServerAction, IsFrom;
    StepExtends(s, a);
    TraceGrows(s, a);
    var n := Next(s, a);
    forall k: nat | k < |s.origin|
      ensures IsFrom(n, k) && n.origin[k] == s.origin[k] && n.server.asked[k] == s.server.asked[k]
    {
      TraceStays(s, n, k);
    }
    if |n.origin| != |s.origin| { NewRequestIsTraced(s, a); }
  }

  lemma TraceGrows(s: System, a: Action)
    requires |s.origin| == |s.server.asked|
    ensures |s.origin| <= |Next(s, a).origin| == |Next(s, a).server.asked| <= |s.origin| + 1
  {
    hide Server.Next, Act, Key;
    Server.StepAsks(s.server, ServerAction(s, a));
  }

  /** A request just read comes from the line that was read, which lies behind those of all earlier ones. */
  lemma NewRequestIsTraced(s: System, a: Action)
    requires ServerSound(s) && Traced(s) && |Next(s, a).origin| != |s.origin|
    ensures var n := Next(s, a);
      && |n.origin| == |s.origin| + 1 == |n.server.asked| && IsFrom(n, |s.origin|)
      && forall j: nat | j < |s.origin| && n.server.asked[j].socket == n.server.asked[|s.origin|].socket ::
           n.origin[j] < n.origin[|s.origin|]
  {
    hide Server.Next, Server.Enabled, Server.Correlated, Server.Routed, Server.AnsweredOnce, Act, Key;
    Server.StepAsks(s.server, ServerAction(s, a));
    var n := Next(s, a);
    assert a.ServerReads? && n == Taken(s, a.link);
    forall j: nat | j < |s.origin| && n.server.asked[j].socket == a.link
      ensures n.origin[j] < n.origin[|s.origin|]
    {
      assert IsFrom(s, j);
    }
  }

  /** A reply on a client's connection bears the id of the line whose request it answers. */
  lemma ReplyBearsItsLine(s: System, link: nat, i: nat)
    requires ServerSound(s) && Traced(s) && ClientsSound(s)
    requires link < |s.links| && s.links[link].party.Harness? && link in s.server.output && i < |s.server.output[link]|
    ensures var w := s.server.output[link][i];
            var k := w.request - 1;
            && 0 <= k < |s.origin| && k < |s.server.asked| && s.server.asked[k].socket == link
            && s.origin[k] < |s.links[link].party.state.sent| && Key(w.id) == Some(s.origin[k] + 1)
  {
    hide Server.Correlated, Server.AnsweredOnce;
    var w := s.server.output[link][i];
    assert Server.AskedBy(s.server, w.request, link, w.id);
    assert IsFrom(s, w.request - 1);
    assert Client.SaysItsAsk(s.links[link].party.state, s.origin[w.request - 1]);
  }

  /** The line just heard settles the exchange that made the request it answers. */
  lemma HearingIsGenuine(s: System, link: nat)
    requires Sound(s) && HasReply(s, link) && s.links[link].party.Harness?
    ensures var l := s.links[link];
            var w := s.server.output[link][l.got];
            var c := l.party.state;
            Key(w.id).Some? && (Key(w.id).value in c.waiting ==>
              Answers(Given(s, link), link, c.waiting[Key(w.id).value], l.got, w.reply))
  {
    hide Genuine, InOrder, ServerSound, Traced, Client.Numbered, Client.SettledOnce, Key;
    ReplyBearsItsLine(s, link, s.links[link].got);
  }

  lemma StepKeepsGenuine(s: System, a: Action)
    requires Sound(s)
    ensures Genuine(Next(s, a))
  {
    hide Next, ClientAction, Answers, InOrder, Traced, ServerSound, HasReply, Given, Extends, Client.Kept, Client.Next;
    hide Client.FromALine, Delivered;
    StepExtends(s, a);
    var n := Next(s, a);
    forall link: nat, e: nat, r | FromALine(n, link, e, r)
      ensures exists i: nat :: Answers(n, link, e, i, r)
    {
      if SettledWith(s, link, e, r) {
        StillFromALine(s, a, link, e, r);
        var i: nat :| Answers(s, link, e, i, r);
        AnswersStay(s, n, link, e, i, r);
      } else {
        HarnessSteps(s, a, link);
        Client.OnlyALineAnswers(s.links[link].party.state, ClientAction(s, a), e, r);
        HearingIsGenuine(s, link);
        assert Answers(n, link, e, s.links[link].got, r);
      }
    }
  }

  lemma StillFromALine(s: System, a: Action, link: nat, e: nat, r: Reply)
    requires ClientsSound(s) && SettledWith(s, link, e, r) && FromALine(Next(s, a), link, e, r)
    ensures FromALine(s, link, e, r)
  {
    hide Next, ClientAction, HasReply, Given, Client.Kept, Client.Next, Client.Standing;
    var n := Next(s, a);
    if n.links[link].party != s.links[link].party {
      HarnessSteps(s, a, link);
      Client.StepKeepsAnswers(s.links[link].party.state, ClientAction(s, a), e);
    }
  }

  /** An answer is for good, and so is a refusal by the close. */
  lemma AnswerStays(s: System, a: Action, link: nat, e: nat, r: Reply)
    requires ServerSound(s) && ClientsSound(s) && HasAnswer(s, link, e, r)
    ensures HasAnswer(Next(s, a), link, e, r)
  {
    hide Next, ClientAction, HasReply, Given, Client.Kept, Client.Next, Client.Standing, ServerSound;
    var n := Next(s, a);
    StepExtends(s, a);
    if n.links[link].party != s.links[link].party {
      HarnessSteps(s, a, link);
      Client.StepKeepsAnswers(s.links[link].party.state, ClientAction(s, a), e);
    }
  }

  /** A reply read by the end of a step was read before it, or is the one the step reads. */
  lemma ReadBefore(s: System, a: Action, link: nat, e: nat, i: nat, r: Reply)
    requires ServerSound(s) && ClientsSound(s) && InOrder(s) && Traced(s)
    requires Answers(Next(s, a), link, e, i, r)
    ensures link < |s.links| && s.links[link].party.Harness?
    ensures if i < s.links[link].got then Answers(s, link, e, i, r)
            else i == s.links[link].got && HasReply(s, link) && Next(s, a).links[link].got != i
  {
    hide Next, Client.Kept, Client.Next, Server.Correlated, Server.Routed, Server.AnsweredOnce;
    StepExtends(s, a);
    CursorsMove(s, a, link);
    if i < s.links[link].got {
      LogsAreKept(s, link);
      ReplyBearsItsLine(s, link, i);
    }
  }

  /** The reply a client is to read next comes to an exchange that no line has answered yet. */
  lemma NextReplyIsFirst(s: System, link: nat, e: nat, t: Reply)
    requires Sound(s) && HasReply(s, link)
    requires var request := s.server.output[link][s.links[link].got].request;
      request >= 1 && MadeBy(s, request - 1, link, e)
    ensures !FromALine(s, link, e, t)
  {
    hide Server.Correlated, Server.Routed, Client.Kept, Client.FromALine, Traced, InOrder, Delivered;
    if FromALine(s, link, e, t) {
      var i: nat :| Answers(s, link, e, i, t);
      var next, read := s.server.output[link][s.links[link].got], s.server.output[link][i];
      OneRequestEach(s, read.request - 1, next.request - 1, link, e);
      assert false;
    }
  }

  /** Reading a reply leaves its exchange with it, unless the close has refused it. */
  lemma ReadingDelivers(s: System, link: nat, e: nat, r: Reply)
    requires Sound(s) && HasReply(s, link) && Answers(Given(s, link), link, e, s.links[link].got, r)
    ensures HasAnswer(Given(s, link), link, e, r)
  {
    hide Given, ServerSound, Traced, InOrder, Genuine, Delivered, Client.Kept, Client.Standing, Client.Next;
    StepExtends(s, PartyReads(link));
    var got := s.links[link].got;
    var w, c := s.server.output[link][got], s.links[link].party.state;
    ReplyBearsItsLine(s, link, got);
    var i := s.origin[w.request - 1];
    Client.SentHasBegun(c, i);
    assert MadeBy(s, w.request - 1, link, e);
    if c.settled[e] == [] {
      ReadingSettles(s, link, i);
    } else {
      NextReplyIsFirst(s, link, e, c.settled[e][0]);
      assert SettledWith(s, link, e, c.settled[e][0]);
      AnswerStays(s, PartyReads(link), link, e, r);
    }
  }

  /** Only reading a reply moves the cursor of what a party has read. */
  lemma ReadingMoves(s: System, a: Action, link: nat)
    requires link < |s.links| && Next(s, a).links[link].got != s.links[link].got
    ensures HasReply(s, link) && a == PartyReads(link) && Next(s, a) == Given(s, link)
  {
    hide Act, Line, Key, Server.Next;
  }

  lemma StepKeepsDelivered(s: System, a: Action)
    requires Sound(s)
    ensures Delivered(Next(s, a))
  {
    hide Next, Answers, HasAnswer, HasReply, Given, InOrder, Traced, ServerSound, ClientsSound, Genuine;
    var n := Next(s, a);
    forall link: nat, e: nat, i: nat, r | Answers(n, link, e, i, r)
      ensures HasAnswer(n, link, e, r)
    {
      ReadBefore(s, a, link, e, i, r);
      if i < s.links[link].got {
        AnswerStays(s, a, link, e, r);
      } else {
        ReadingMoves(s, a, link);
        ReadingDelivers(s, link, e, r);
      }
    }
  }

  lemma StepKeepsSound(s: System, a: Action)
    requires Sound(s)
    ensures Sound(Next(s, a))
  {
    hide Next;
    StepKeepsServer(s, a);
    StepKeepsClients(s, a);
    StepKeepsOrder(s, a);
    StepKeepsTrace(s, a);
    StepKeepsGenuine(s, a);
    StepKeepsDelivered(s, a);
  }

  lemma {:induction false} EveryRunIsSound(s: System, actions: seq<Action>)
    requires Sound(s)
    ensures Sound(Run(s, actions))
    decreases |actions|
  {
    if actions != [] {
      StepKeepsSound(s, actions[0]);
      EveryRunIsSound(Next(s, actions[0]), actions[1..]);
    }
  }

  // ---------------------------------------------------------------- the protocol's promise

  /** Whether request `k + 1` is a line that exchange `e` of the connection's client sent. */
  ghost predicate MadeBy(s: System, k: nat, link: nat, e: nat) {
    && k < |s.origin| && k < |s.server.asked| && s.server.asked[k].socket == link
    && link < |s.links| && s.links[link].party.Harness?
    && s.origin[k] < |s.links[link].party.state.sent|
    && s.links[link].party.state.sent[s.origin[k]].exchange == e
  }

  /** No exchange makes two requests of the server. */
  lemma OneRequestEach(s: System, j: nat, k: nat, link: nat, e: nat)
    requires Traced(s) && ClientsSound(s) && MadeBy(s, j, link, e) && MadeBy(s, k, link, e)
    ensures j == k
  {
    Client.SendsOnce(s.links[link].party.state, s.origin[j], s.origin[k]);
  }

  /**
   In every interleaving, with any strangers on the other connections: an answer that
   the client did not make up, for want of a socket, is the one the broker gave to the
   single request that the exchange made.
   */
  lemma AnswersAreTheBrokers(actions: seq<Action>, link: nat, e: nat, r: Reply)
    requires FromALine(Run(INITIAL, actions), link, e, r)
    ensures AnsweredByTheBroker(Run(INITIAL, actions), link, e, r)
  {
    EveryRunIsSound(INITIAL, actions);
    SoundAnswers(Run(INITIAL, actions), link, e, r);
  }

  /**
   And the other way: whatever else happens, a reply the client has read is the answer
   of the exchange whose request it answers, unless the socket's close refused that
   exchange first.
   */
  lemma RepliesReachTheirExchanges(actions: seq<Action>, link: nat, e: nat, i: nat, r: Reply)
    requires Answers(Run(INITIAL, actions), link, e, i, r)
    ensures HasAnswer(Run(INITIAL, actions), link, e, r)
  {
    EveryRunIsSound(INITIAL, actions);
  }

  ghost predicate AnsweredByTheBroker(s: System, link: nat, e: nat, r: Reply) {
    && (exists i: nat :: Answers(s, link, e, i, r))
    && (forall j: nat, k: nat :: MadeBy(s, j, link, e) && MadeBy(s, k, link, e) ==> j == k)
    && (forall k: nat :: MadeBy(s, k, link, e) ==> AsksFor(s, k, link, e))
  }

  /** Whether request `k + 1` carries what exchange `e` of the connection's client asks. */
  ghost predicate AsksFor(s: System, k: nat, link: nat, e: nat)
    requires MadeBy(s, k, link, e)
  {
    e < |s.links[link].party.state.asks| && s.server.asked[k].ask == s.links[link].party.state.asks[e]
  }

  lemma SoundAnswers(s: System, link: nat, e: nat, r: Reply)
    requires Sound(s) && FromALine(s, link, e, r)
    ensures AnsweredByTheBroker(s, link, e, r)
  {
    forall j: nat, k: nat | MadeBy(s, j, link, e) && MadeBy(s, k, link, e)
      ensures j == k
    {
      OneRequestEach(s, j, k, link, e);
    }
    forall k: nat | MadeBy(s, k, link, e)
      ensures AsksFor(s, k, link, e)
    {
      assert IsFrom(s, k) && Client.SaysItsAsk(s.links[link].party.state, s.origin[k]);
    }
  }

  lemma SettledAtMostOnce(actions: seq<Action>, link: nat, e: nat)
    ensures var s := Run(INITIAL, actions);
            link < |s.links| && s.links[link].party.Harness? && e < |s.links[link].party.state.settled| ==>
              |s.links[link].party.state.settled[e]| <= 1
  {
    EveryRunIsSound(INITIAL, actions);
  }

  // ---------------------------------------------------------------- one exchange, from its begin to its answer

  /** A client whose socket stands on both sides, with nothing on its way in either direction. */
  predicate IsQuiet(s: System, link: nat) {
    && link < |s.links| && s.links[link].party.Harness? && link !in s.server.destroyed
    && s.links[link].party.state.attached && !s.links[link].party.state.destroyed
    && s.links[link].heard == |s.links[link].party.state.sent|
    && link in s.server.output && s.links[link].got == |s.server.output[link]|
  }

  /** A client let in is quiet, and a stranger let in has said nothing. */
  lemma ConnectingIsExact(s: System, peer: string, own: bool)
    requires Sound(s)
    ensures var n := Next(s, Connect(peer, own));
            if !s.server.accepting then n == s
            else
              && |n.links| == |s.links| + 1 && n.links[..|s.links|] == s.links && n.origin == s.origin
              && n.server.names == s.server.names[|s.links| := peer]
              && (own ==> IsQuiet(n, |s.links|))
              && (!own ==> n.links[|s.links|] == Link(Stranger([]), 0, 0))
  {
    hide ClientsSound, InOrder, Traced, Genuine, Delivered, Server.Numbered, Server.Routed, Server.AnsweredOnce;
    assert |s.links| !in s.server.names.Keys && |s.links| !in s.server.destroyed;
  }

  /** Strangers say whatever they like, and clients act only on their own. */
  lemma PartiesAct(s: System, link: nat, line: Line, ask: Ask)
    requires link < |s.links|
    ensures var p := s.links[link].party;
      if p.Stranger? then
        && Next(s, Say(link, line)) == WithParty(s, link, Stranger(p.lines + [line]))
        && Next(s, Begin(link, ask)) == Next(s, PartyDies(link)) == Next(s, PartyCloses(link)) == s
      else
        && Next(s, Say(link, line)) == s
        && Next(s, Begin(link, ask)) == WithParty(s, link, Harness(Client.Next(p.state, Client.Exchange(ask))))
        && Next(s, PartyDies(link)) == WithParty(s, link, Harness(Client.Next(p.state, Client.Die)))
        && Next(s, PartyCloses(link)) == WithParty(s, link, Harness(Client.Next(p.state, Client.Close)))
  {
    hide Client.Next;
    assert s.links[link := s.links[link]] == s.links;
  }

  /** The request this exchange is to make of the server. */
  function RequestOf(s: System, link: nat, ask: Ask): Server.Source
    requires IsQuiet(s, link)
  {
    Server.Source(link, Whole(|s.links[link].party.state.sent| + 1), ask)
  }

  lemma BeginSends(s: System, link: nat, ask: Ask)
    requires Sound(s) && IsQuiet(s, link)
    ensures var n := Next(s, Begin(link, ask));
            && n.server == s.server && n.origin == s.origin && |n.links| == |s.links|
            && n.links[link].party.Harness? && HasLine(n, link)
            && Line(n.links[link].party, n.links[link].heard) == Request(RequestOf(s, link, ask).id, ask)
            && n.links[link].got == s.links[link].got && n.links[link].heard == s.links[link].heard
            && var c := n.links[link].party.state;
            && c.settled == s.links[link].party.state.settled + [[]] && c.attached && !c.destroyed
            && |c.sent| == n.links[link].heard + 1
            && c.sent[n.links[link].heard].exchange == |c.settled| - 1
  {
    hide ServerSound, InOrder, Traced, Genuine, Delivered;
  }

  /** What the server reads of a connection is its party's next line, and a request among them is asked. */
  lemma ReadingAsks(s: System, link: nat)
    requires ServerSound(s) && HasLine(s, link)
    ensures var n := Next(s, ServerReads(link));
            var line := Line(s.links[link].party, s.links[link].heard);
            && n.links == s.links[link := s.links[link].(heard := s.links[link].heard + 1)]
            && n.server.asked == s.server.asked
                 + (if line.Request? then [Server.Source(link, line.id, line.ask)] else [])
            && n.server.spent == s.server.spent && n.server.destroyed == s.server.destroyed
            && n.server.output == s.server.output
  {
    hide Server.Routed, Server.AnsweredOnce, Server.Attached, Server.Numbered;
    assert link in s.server.names;
  }

  lemma AnswerWrites(s: System, request: int, reply: Reply)
    requires ServerSound(s) && Server.IsOpen(s.server, request)
    ensures var n := Next(s, ServerDoes(Server.Answer(request, reply)));
            var socket := s.server.asked[request - 1].socket;
            && n.links == s.links && socket in s.server.output && n.server.destroyed == s.server.destroyed
            && n.server.output
               == Server.WithLine(s.server.output, socket, Server.LineFor(s.server, request, reply))
  {
    hide Server.Routed, Server.AnsweredOnce, Server.Next, Server.WithLine, Server.LineFor;
    Server.DeliverableExactly(s.server, request, reply);
    Server.StepAdmits(s.server, Server.Answer(request, reply));
  }

  /** A client that reads the reply to an unsettled exchange settles that one with it. */
  lemma ReadingSettles(s: System, link: nat, i: nat)
    requires HasReply(s, link) && s.links[link].party.Harness? && Client.Kept(s.links[link].party.state)
    requires var w := s.server.output[link][s.links[link].got];
      Client.Names(s.links[link].party.state, w.id, i)
    ensures var n := Next(s, PartyReads(link));
            var w := s.server.output[link][s.links[link].got];
            var l, m, c := s.links[link], n.links[link], s.links[link].party.state;
            && n.server == s.server && |n.links| == |s.links|
            && m.party.Harness? && m.heard == l.heard && m.got == l.got + 1
            && m.party.state.sent == c.sent
            && m.party.state.attached == c.attached && m.party.state.destroyed == c.destroyed
            && m.party.state.settled == c.settled[c.sent[i].exchange := [w.reply]]
  {
    hide Client.Kept, Client.Next, Key;
    var w := s.server.output[link][s.links[link].got];
    Client.KeptHears(s.links[link].party.state, w.id, w.reply);
  }

  /** The system once the server has read the exchange's request and answered it, and the client has read the answer. */
  function Completed(s: System, link: nat, ask: Ask, reply: Reply): System {
    var read := Next(Next(s, Begin(link, ask)), ServerReads(link));
    Next(Next(read, ServerDoes(Server.Answer(|s.server.asked| + 1, reply))), PartyReads(link))
  }

  /**
   From every sound state: an exchange of a quiet client is one request at the server,
   and once it is answered and the answer read the exchange has that answer. The client
   is quiet again, so exchange after exchange completes.
   */
  lemma ExchangeCompletes(s: System, link: nat, ask: Ask, reply: Reply)
    requires Sound(s) && IsQuiet(s, link)
    ensures var read, done := Next(Next(s, Begin(link, ask)), ServerReads(link)), Completed(s, link, ask, reply);
            && read.server.asked == s.server.asked + [RequestOf(s, link, ask)]
            && Sound(done) && IsQuiet(done, link)
            && done.links[link].party.state.settled == s.links[link].party.state.settled + [[reply]]
  {
    hide Next, Sound, Line, Client.Kept, Client.Numbered, Server.Correlated, Server.Routed, Server.AnsweredOnce;
    var sent := Next(s, Begin(link, ask));
    BeginSends(s, link, ask);
    StepKeepsSound(s, Begin(link, ask));
    SoundServer(sent);
    ReadingAsks(sent, link);
    var read := Next(sent, ServerReads(link));
    StepKeepsSound(sent, ServerReads(link));
    var request := |s.server.asked| + 1;
    SoundServer(s);
    SoundServer(read);
    assert request !in read.server.spent;
    AnswerWrites(read, request, reply);
    var answered := Next(read, ServerDoes(Server.Answer(request, reply)));
    StepKeepsSound(read, ServerDoes(Server.Answer(request, reply)));
    SoundServer(answered);
    var c := sent.links[link].party.state;
    assert answered.links[link].party == sent.links[link].party;
    assert answered.links[link].got == |s.server.output[link]|;
    assert answered.server.output[link] == s.server.output[link] + [Server.LineFor(read.server, request, reply)];
    assert HasReply(answered, link);
    assert Client.Names(c, Server.LineFor(read.server, request, reply).id, |c.sent| - 1);
    ReadingSettles(answered, link, |c.sent| - 1);
    StepKeepsSound(answered, PartyReads(link));
  }

  lemma SoundServer(s: System)
    requires Sound(s)
    ensures ServerSound(s) && ClientsSound(s)
    ensures forall k :: k in s.server.spent ==> 1 <= k <= |s.server.asked|
  {
  }
}
