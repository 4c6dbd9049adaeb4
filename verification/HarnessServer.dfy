/** The window socket server of scripts/nightly-client-harness-stable.ts; a run is an arbitrary list of actions. */
module HarnessServer {
  import opened HarnessWire
  import opened Prelude

  datatype Entry = Entry(socket: nat, id: Number)

  /** A request as its connection sent it. */
  datatype Source = Source(socket: nat, id: Number, ask: Ask)

  /** One line written to a connection; `request` is the server's number for what it answers. */
  datatype Written = Written(request: int, id: Option<Number>, reply: Reply)

  datatype Event = Asked(request: int, peer: string, ask: Ask) | PeerExited(peer: string)

  /**
   The server's variables, its effects (`output` per connection, `events` at the
   listener) and two histories: `asked`, the request behind each request number, and
   `spent`, the request numbers a reply was given for.
   `names` holds the peer name each connection's handlers close over.
   */
  datatype State = State(
    listening: bool, nextRequest: int, pending: map<int, Entry>,
    names: map<nat, string>, peers: map<nat, string>, sockets: set<nat>, destroyed: set<nat>, accepting: bool,
    output: map<nat, seq<Written>>, events: seq<Event>,
    asked: seq<Source>, spent: set<int>)

  datatype Action =
    | Connect(socket: nat, peer: string)
    | Read(socket: nat, line: Line)
    | Die(socket: nat)
    | Close(socket: nat)
    | Listen
    | Answer(request: int, reply: Reply)
    | Stop

  const INITIAL := State(false, 1, map[], map[], map[], {}, {}, true, map[], [], [], {})

  predicate Enabled(s: State, a: Action) {
    match a
    case Connect(socket, _) => s.accepting && socket !in s.names
    case Read(socket, _) => socket in s.names
    case Die(socket) => socket in s.names
    case Close(socket) => socket in s.sockets && socket in s.destroyed
    case _ => true
  }

  function Emitted(s: State, event: Event): seq<Event> {
    if s.listening then s.events + [event] else s.events
  }

  function Registered(s: State, socket: nat, line: Line): State
    requires socket in s.names
  {
    match line
    case Noise => s
    case Request(id, ask) =>
      s.(nextRequest := s.nextRequest + 1,
         pending := s.pending[s.nextRequest := Entry(socket, id)],
         asked := s.asked + [Source(socket, id, ask)],
         events := Emitted(s, Asked(s.nextRequest, s.names[socket], ask)))
  }

  function Closed(s: State, socket: nat): State {
    s.(sockets := s.sockets - {socket},
       peers := s.peers - {socket},
       events := if socket in s.peers then Emitted(s, PeerExited(s.peers[socket])) else s.events)
  }

  /** Whether `replyWindow` finds a connection to write to. */
  predicate Deliverable(s: State, request: int) {
    request in s.pending && s.pending[request].socket !in s.destroyed && s.pending[request].socket in s.output
  }

  function Answered(s: State, request: int, reply: Reply): State {
    s.(pending := s.pending - {request},
       spent := if request in s.pending then s.spent + {request} else s.spent,
       output :=
         if !Deliverable(s, request) then s.output
         else
           var target := s.pending[request];
           s.output[target.socket := s.output[target.socket] + [Written(request, Wire(target.id), reply)]])
  }

  /** One step of the server. An action that cannot occur leaves it as it is. */
  function Next(s: State, a: Action): State {
    if !Enabled(s, a) then s
    else
      match a
      case Connect(socket, peer) =>
        s.(names := s.names[socket := peer], peers := s.peers[socket := peer],
           sockets := s.sockets + {socket}, output := s.output[socket := []])
      case Read(socket, line) => Registered(s, socket, line)
      case Die(socket) => s.(destroyed := s.destroyed + {socket})
      case Close(socket) => Closed(s, socket)
      case Listen => s.(listening := true)
      case Answer(request, reply) => Answered(s, request, reply)
      case Stop => s.(listening := false, accepting := false, destroyed := s.destroyed + s.sockets)
  }

  function Run(s: State, actions: seq<Action>): State
    decreases |actions|
  {
    if actions == [] then s else Run(Next(s, actions[0]), actions[1..])
  }

  lemma StopDestroys(s: State)
    ensures Next(s, Stop) == s.(listening := false, accepting := false, destroyed := s.destroyed + s.sockets)
  {
  }

  lemma DestroysOneMore(destroyed: set<nat>, sockets: set<nat>, left: set<nat>, socket: nat)
    requires socket in left && left <= sockets
    ensures destroyed + (sockets - left) + {socket} == destroyed + (sockets - (left - {socket}))
  {
  }

  // ---------------------------------------------------------------- the handlers

  /** The handlers of one server; each is one step of `Next`. */
  class WindowServer {
    var listening: bool
    var nextRequest: int
    var pending: map<int, Entry>
    var names: map<nat, string>
    var peers: map<nat, string>
    var sockets: set<nat>
    var destroyed: set<nat>
    var accepting: bool
    var output: map<nat, seq<Written>>
    var events: seq<Event>
    ghost var asked: seq<Source>
    ghost var spent: set<int>

    ghost function Now(): State
      reads this
    {
      State(listening, nextRequest, pending, names, peers, sockets, destroyed, accepting, output, events,
            asked, spent)
    }

    constructor ()
      ensures Now() == INITIAL
    {
      listening, nextRequest, pending := false, 1, map[];
      names, peers, sockets, destroyed, accepting := map[], map[], {}, {}, true;
      output, events, asked, spent := map[], [], [], {};
    }

    method Emit(event: Event)
      modifies this`events
      ensures events == Emitted(old(Now()), event)
    {
      if listening { events := events + [event]; }
    }

    method OnConnection(socket: nat, peer: string)
      requires accepting && socket !in names
      modifies this
      ensures Now() == Next(old(Now()), Connect(socket, peer))
    {
      names := names[socket := peer];
      peers := peers[socket := peer];
      sockets := sockets + {socket};
      output := output[socket := []];
    }

    method OnLine(socket: nat, line: Line)
      requires socket in names
      modifies this
      ensures Now() == Next(old(Now()), Read(socket, line))
    {
      if line.Noise? { return; }
      var requestId := nextRequest;
      nextRequest := nextRequest + 1;
      pending := pending[requestId := Entry(socket, line.id)];
      asked := asked + [Source(socket, line.id, line.ask)];
      Emit(Asked(requestId, names[socket], line.ask));
    }

    method OnDestroyed(socket: nat)
      requires socket in names
      modifies this`destroyed
      ensures Now() == Next(old(Now()), Die(socket))
    {
      destroyed := destroyed + {socket};
    }

    method OnClose(socket: nat)
      requires socket in sockets && socket in destroyed
      modifies this
      ensures Now() == Next(old(Now()), Close(socket))
    {
      sockets := sockets - {socket};
      var exited := if socket in peers then Some(peers[socket]) else None;
      peers := peers - {socket};
      if exited.Some? { Emit(PeerExited(exited.value)); }
    }

    method ListenWindows()
      modifies this`listening
      ensures Now() == Next(old(Now()), Listen)
    {
      listening := true;
    }

    method ReplyWindow(requestId: int, reply: Reply) returns (delivered: bool)
      requires Correlated(Now())
      modifies this
      ensures Now() == Next(old(Now()), Answer(requestId, reply))
      ensures delivered == old(Deliverable(Now(), requestId))
    {
      hide Numbered, Attached;
      var target := if requestId in pending then Some(pending[requestId]) else None;
      if target.Some? {
        PendingIsKnown(Now(), requestId);
        spent := spent + {requestId};
      }
      pending := pending - {requestId};
      if target.None? || target.value.socket in destroyed { return false; }
      var socket := target.value.socket;
      output := output[socket := output[socket] + [Written(requestId, Wire(target.value.id), reply)]];
      return true;
    }

    method StopWindows()
      modifies this
      ensures Now() == Next(old(Now()), Stop)
    {
      hide Next;
      StopDestroys(old(Now()));
      listening := false;
      var left := sockets;
      while left != {}
        invariant left <= sockets && destroyed == old(destroyed) + (sockets - left)
        decreases |left|
        modifies this`destroyed
      {
        var socket :| socket in left;
        DestroysOneMore(old(destroyed), sockets, left, socket);
        left := left - {socket};
        destroyed := destroyed + {socket};
      }
      assert destroyed == old(destroyed) + sockets;
      accepting := false;
    }
  }

  // ---------------------------------------------------------------- correlation

  function Waiting(source: Source): Entry {
    Entry(source.socket, source.id)
  }

  /** Whether request number `request` is the one its connection numbered `id`. */
  predicate AskedBy(s: State, request: int, socket: nat, id: Option<Number>) {
    && 1 <= request <= |s.asked|
    && s.asked[request - 1].socket == socket && Wire(s.asked[request - 1].id) == id
  }

  /** Every line written answers a request of that very connection, with that request's own id. */
  ghost predicate Routed(s: State) {
    forall socket, i :: socket in s.output && 0 <= i < |s.output[socket]| ==>
      var w := s.output[socket][i];
      AskedBy(s, w.request, socket, w.id) && w.request in s.spent
  }

  /** No request number is answered twice. */
  ghost predicate AnsweredOnce(s: State) {
    forall socket, i, other, j ::
      && socket in s.output && 0 <= i < |s.output[socket]| && other in s.output && 0 <= j < |s.output[other]|
      && s.output[socket][i].request == s.output[other][j].request
      ==> socket == other && i == j
  }

  /** The map of pending requests is exactly the requests asked and not yet answered. */
  ghost predicate Numbered(s: State) {
    && s.nextRequest == |s.asked| + 1
    && (forall k :: k in s.pending ==> 1 <= k <= |s.asked| && s.pending[k] == Waiting(s.asked[k - 1]))
    && (forall k :: 1 <= k <= |s.asked| ==> (k in s.pending <==> k !in s.spent))
    && (forall k :: k in s.spent ==> 1 <= k <= |s.asked|)
  }

  /** A connection stays in `sockets`, with its peer, until it closes, which only a dead one does. */
  ghost predicate Attached(s: State) {
    && s.output.Keys == s.names.Keys
    && s.sockets <= s.names.Keys <= s.sockets + s.destroyed && s.destroyed <= s.names.Keys
    && s.peers.Keys == s.sockets
    && (forall k :: k in s.peers ==> s.peers[k] == s.names[k])
    && (forall i :: 0 <= i < |s.asked| ==> s.asked[i].socket in s.names)
  }

  ghost predicate Correlated(s: State) {
    Numbered(s) && Attached(s)
  }

  lemma PendingIsKnown(s: State, request: int)
    requires Correlated(s) && request in s.pending
    ensures s.pending[request].socket in s.output
  {
  }

  lemma StepNumbers(s: State, a: Action)
    requires Numbered(s)
    ensures Numbered(Next(s, a))
  {
    hide Registered, Answered, Emitted;
    match a
    case Read(socket, line) => if socket in s.names { RegisteredNumbers(s, socket, line); }
    case Answer(request, reply) => AnsweredNumbers(s, request, reply);
    case _ =>
  }

  lemma RegisteredNumbers(s: State, socket: nat, line: Line)
    requires Numbered(s) && socket in s.names
    ensures Numbered(Registered(s, socket, line))
  {
    var n := Registered(s, socket, line);
    forall k | k in n.pending
      ensures 1 <= k <= |n.asked| && n.pending[k] == Waiting(n.asked[k - 1])
    {
      if k in s.pending { assert s.pending[k] == Waiting(s.asked[k - 1]); }
    }
  }

  lemma AnsweredNumbers(s: State, request: int, reply: Reply)
    requires Numbered(s)
    ensures Numbered(Answered(s, request, reply))
  {
    hide Deliverable;
  }

  lemma StepAttaches(s: State, a: Action)
    requires Correlated(s)
    ensures Attached(Next(s, a))
  {
    hide Registered, Answered, Closed;
    match a
    case Read(socket, line) => if socket in s.names { RegisteredAttaches(s, socket, line); }
    case Close(socket) => if Enabled(s, a) { ClosedAttaches(s, socket); }
    case Answer(request, reply) => AnsweredAttaches(s, request, reply);
    case _ =>
  }

  lemma RegisteredAttaches(s: State, socket: nat, line: Line)
    requires Attached(s) && socket in s.names
    ensures Attached(Registered(s, socket, line))
  {
    var n := Registered(s, socket, line);
    forall i | 0 <= i < |n.asked|
      ensures n.asked[i].socket in n.names
    {
      if i < |s.asked| { assert n.asked[i] == s.asked[i]; }
    }
  }

  lemma ClosedAttaches(s: State, socket: nat)
    requires Attached(s) && socket in s.destroyed
    ensures Attached(Closed(s, socket))
  {
  }

  lemma AnsweredAttaches(s: State, request: int, reply: Reply)
    requires Attached(s)
    ensures Attached(Answered(s, request, reply))
  {
    if Deliverable(s, request) {
      assert Answered(s, request, reply).output.Keys == s.output.Keys;
    }
  }

  lemma StepCorrelates(s: State, a: Action)
    requires Correlated(s)
    ensures Correlated(Next(s, a))
  {
    hide Next, Attached, Numbered;
    StepNumbers(s, a);
    StepAttaches(s, a);
  }

  /** What stands on a connection stays; what is new is the reply just given, to the connection that asked. */
  lemma StepWrites(s: State, a: Action, socket: nat, i: nat)
    requires socket in Next(s, a).output && i < |Next(s, a).output[socket]|
    ensures var n := Next(s, a);
      if socket in s.output && i < |s.output[socket]| then n.output[socket][i] == s.output[socket][i]
      else IsReply(s, a, socket, i, n.output[socket][i])
    ensures s.spent <= Next(s, a).spent && (IsGiven(s, a) ==> a.request in Next(s, a).spent)
  {
    hide Emitted;
  }

  predicate IsGiven(s: State, a: Action) {
    a.Answer? && Deliverable(s, a.request)
  }

  predicate IsReply(s: State, a: Action, socket: nat, i: nat, w: Written) {
    && IsGiven(s, a) && socket == s.pending[a.request].socket && i == |s.output[socket]|
    && w == Written(a.request, Wire(s.pending[a.request].id), a.reply)
  }

  lemma StepRoutes(s: State, a: Action)
    requires Correlated(s) && Routed(s)
    ensures Routed(Next(s, a))
  {
    hide Next, Attached, Deliverable;
    StepRemembers(s, a);
    var n := Next(s, a);
    forall socket, i | socket in n.output && 0 <= i < |n.output[socket]|
      ensures AskedBy(n, n.output[socket][i].request, socket, n.output[socket][i].id)
      ensures n.output[socket][i].request in n.spent
    {
      StepWrites(s, a, socket, i);
      if socket in s.output && i < |s.output[socket]| {
        assert AskedBy(s, s.output[socket][i].request, socket, s.output[socket][i].id);
      } else {
        PendingWasAsked(s, a.request);
      }
    }
  }

  lemma PendingWasAsked(s: State, request: int)
    requires Numbered(s) && Deliverable(s, request)
    ensures AskedBy(s, request, s.pending[request].socket, Wire(s.pending[request].id)) && request !in s.spent
  {
    assert s.pending[request] == Waiting(s.asked[request - 1]);
  }

  lemma StepAnswersOnce(s: State, a: Action)
    requires Correlated(s) && Routed(s) && AnsweredOnce(s)
    ensures AnsweredOnce(Next(s, a))
  {
    hide Next, Correlated, Attached, Numbered, Deliverable;
    var n := Next(s, a);
    forall socket, i, other, j |
      && socket in n.output && 0 <= i < |n.output[socket]| && other in n.output && 0 <= j < |n.output[other]|
      && n.output[socket][i].request == n.output[other][j].request
      ensures socket == other && i == j
    {
      StepWrites(s, a, socket, i);
      StepWrites(s, a, other, j);
      if IsGiven(s, a) { GivenIsFresh(s, a); }
    }
  }

  lemma GivenIsFresh(s: State, a: Action)
    requires Correlated(s) && Routed(s) && IsGiven(s, a)
    ensures forall socket, i :: socket in s.output && 0 <= i < |s.output[socket]| ==>
              s.output[socket][i].request != a.request
  {
    PendingWasAsked(s, a.request);
  }

  /**
   In every run, whatever ids the peers choose: a reply reaches only the connection
   that asked, with that request's own id, and no request is answered twice.
   */
  lemma {:induction false} EveryRunCorrelates(s: State, actions: seq<Action>)
    requires Correlated(s) && Routed(s) && AnsweredOnce(s)
    ensures Correlated(Run(s, actions)) && Routed(Run(s, actions)) && AnsweredOnce(Run(s, actions))
    decreases |actions|
  {
    hide Next, Correlated, Routed, AnsweredOnce;
    if actions != [] {
      StepCorrelates(s, actions[0]);
      StepRoutes(s, actions[0]);
      StepAnswersOnce(s, actions[0]);
      EveryRunCorrelates(Next(s, actions[0]), actions[1..]);
    }
  }

  /** Whether a reply to this number is deliverable: it was given out, has no reply, and its connection stands. */
  predicate IsOpen(s: State, request: int) {
    1 <= request <= |s.asked| && request !in s.spent && s.asked[request - 1].socket !in s.destroyed
  }

  /** The line a reply to the number becomes: an id that JSON cannot write is written as null. */
  function LineFor(s: State, request: int, reply: Reply): Written
    requires 1 <= request <= |s.asked|
  {
    var id := s.asked[request - 1].id;
    Written(request, if id.Infinite? then None else Some(id), reply)
  }

  /** The logs once one line more stands on a connection. */
  function WithLine(output: map<nat, seq<Written>>, socket: nat, line: Written): map<nat, seq<Written>>
    requires socket in output
  {
    output[socket := output[socket] + [line]]
  }

  /**
   After every run a reply is delivered exactly when its number is open: then one line
   with the request's own id stands on the connection that asked, and nothing else is
   written. Any other number is refused, and nothing is written anywhere. Either way
   the number is closed.
   */
  lemma RepliesAreDeliveredExactly(actions: seq<Action>, request: int, reply: Reply)
    ensures var s := Run(INITIAL, actions);
            var n := Next(s, Answer(request, reply));
            && (Deliverable(s, request) <==> IsOpen(s, request))
            && (IsOpen(s, request) ==>
                  s.asked[request - 1].socket in s.output
                  && n.output == WithLine(s.output, s.asked[request - 1].socket, LineFor(s, request, reply)))
            && (!IsOpen(s, request) ==> n.output == s.output)
            && !IsOpen(n, request)
  {
    hide Run, Correlated, IsOpen, LineFor, WithLine, Next, Deliverable;
    InitialIsCorrelated();
    EveryRunCorrelates(INITIAL, actions);
    DeliverableExactly(Run(INITIAL, actions), request, reply);
  }

  lemma InitialIsCorrelated()
    ensures Correlated(INITIAL) && Routed(INITIAL) && AnsweredOnce(INITIAL)
  {
  }

  lemma DeliverableExactly(s: State, request: int, reply: Reply)
    requires Correlated(s)
    ensures Deliverable(s, request) <==> IsOpen(s, request)
    ensures var n := Next(s, Answer(request, reply));
            && (IsOpen(s, request) ==>
                  s.asked[request - 1].socket in s.output
                  && n.output == WithLine(s.output, s.asked[request - 1].socket, LineFor(s, request, reply)))
            && (!IsOpen(s, request) ==> n.output == s.output)
            && !IsOpen(n, request)
  {
    if request in s.pending { PendingIsKnown(s, request); }
  }

  /** Each step's effect on the connections: who is let in, who leaves, and who is cut off. */
  lemma StepAdmits(s: State, a: Action)
    ensures var n := Next(s, a);
      && n.accepting == (s.accepting && a != Stop)
      && n.sockets ==
         (if a.Connect? && s.accepting && a.socket !in s.names then s.sockets + {a.socket}
          else if a.Close? && a.socket in s.destroyed then s.sockets - {a.socket}
          else s.sockets)
      && n.destroyed ==
         (if a.Die? && a.socket in s.names then s.destroyed + {a.socket}
          else if a.Stop? then s.destroyed + s.sockets
          else s.destroyed)
  {
  }

  /** A number is spent by its first reply, delivered or not, and a log starts empty. */
  lemma StepSpends(s: State, a: Action)
    requires Correlated(s)
    ensures Next(s, a).spent == if a.Answer? && 1 <= a.request <= |s.asked| then s.spent + {a.request} else s.spent
    ensures !a.Answer? ==>
      Next(s, a).output ==
        if a.Connect? && s.accepting && a.socket !in s.names then s.output[a.socket := []] else s.output
  {
    hide Attached;
  }

  // ---------------------------------------------------------------- what the listener hears

  /** Every request told to the listener names its asker and carries its ask, in request order, so each at most once. */
  ghost predicate Told(s: State) {
    && (forall i :: 0 <= i < |s.events| && s.events[i].Asked? ==>
          var e := s.events[i];
          1 <= e.request <= |s.asked| &&
          var source := s.asked[e.request - 1];
          source.socket in s.names && e.peer == s.names[source.socket] && e.ask == source.ask)
    && (forall i, j :: 0 <= i < j < |s.events| && s.events[i].Asked? && s.events[j].Asked? ==>
          s.events[i].request < s.events[j].request)
  }

  /** Histories only grow, and names stay. */
  lemma StepRemembers(s: State, a: Action)
    requires Correlated(s)
    ensures var n := Next(s, a);
            && s.asked <= n.asked && s.events <= n.events && |n.events| <= |s.events| + 1
            && (forall k :: k in s.names ==> k in n.names && n.names[k] == s.names[k])
  {
  }

  /** Only a connection that is let in gets a name. */
  lemma StepNames(s: State, a: Action)
    ensures Next(s, a).names ==
      if a.Connect? && s.accepting && a.socket !in s.names then s.names[a.socket := a.peer] else s.names
  {
  }

  /** Only a request that is read is asked. */
  lemma StepAsks(s: State, a: Action)
    ensures Next(s, a).asked ==
      if a.Read? && a.socket in s.names && a.line.Request? then s.asked + [Source(a.socket, a.line.id, a.line.ask)]
      else s.asked
  {
  }

  /** What a step has to tell a listener: the request just read, or the peer that just left. */
  function News(s: State, a: Action): seq<Event>
    requires Correlated(s)
  {
    if a.Read? && a.socket in s.names && a.line.Request? then [Asked(|s.asked| + 1, s.names[a.socket], a.line.ask)]
    else if a.Close? && a.socket in s.sockets && a.socket in s.destroyed then [PeerExited(s.names[a.socket])]
    else []
  }

  /** Exactly that is told, and only while someone listens. */
  lemma StepTellsExactly(s: State, a: Action)
    requires Correlated(s)
    ensures Next(s, a).events == s.events + (if s.listening then News(s, a) else [])
    ensures Next(s, a).listening == (a == Listen || (s.listening && a != Stop))
  {
  }

  lemma StepTells(s: State, a: Action)
    requires Correlated(s) && Told(s)
    ensures Told(Next(s, a))
  {
    hide Next, Attached;
    StepRemembers(s, a);
    StepAsks(s, a);
    StepTellsExactly(s, a);
  }

  lemma {:induction false} EveryRunTells(s: State, actions: seq<Action>)
    requires Correlated(s) && Told(s)
    ensures Told(Run(s, actions))
    decreases |actions|
  {
    hide Next, Correlated, Told;
    if actions != [] {
      StepCorrelates(s, actions[0]);
      StepTells(s, actions[0]);
      EveryRunTells(Next(s, actions[0]), actions[1..]);
    }
  }

  predicate IsTold(s: State, k: int)
    requires 1 <= k <= |s.asked|
  {
    exists i :: 0 <= i < |s.events| && IsTelling(s, k, s.events[i])
  }

  predicate IsTelling(s: State, k: int, e: Event)
    requires 1 <= k <= |s.asked|
  {
    var source := s.asked[k - 1];
    source.socket in s.names && e == Asked(k, s.names[source.socket], source.ask)
  }

  lemma StillTold(s: State, a: Action, k: int)
    requires Correlated(s) && 1 <= k <= |s.asked| && IsTold(s, k)
    ensures k <= |Next(s, a).asked| && IsTold(Next(s, a), k)
  {
    StepRemembers(s, a);
    var i :| 0 <= i < |s.events| && IsTelling(s, k, s.events[i]);
    assert IsTelling(Next(s, a), k, Next(s, a).events[i]);
  }

  /** While someone listens, a request just asked is told at once. */
  lemma StepHears(s: State, a: Action)
    requires Correlated(s) && s.listening && a != Stop
    ensures Next(s, a).listening && |Next(s, a).asked| <= |s.asked| + 1
    ensures |Next(s, a).asked| > |s.asked| ==> IsTold(Next(s, a), |s.asked| + 1)
  {
    hide Attached, Deliverable;
    var n := Next(s, a);
    StepRemembers(s, a);
    StepAsks(s, a);
    if |n.asked| > |s.asked| {
      assert IsTelling(n, |s.asked| + 1, n.events[|s.events|]);
    }
  }

  /** While someone listens, every request is told to it. */
  lemma {:induction false} ListenerHearsAll(s: State, actions: seq<Action>, from: nat)
    requires Correlated(s) && s.listening && Stop !in actions
    requires forall k :: from < k <= |s.asked| ==> IsTold(s, k)
    ensures var n := Run(s, actions);
            n.listening && forall k :: from < k <= |n.asked| ==> IsTold(n, k)
    decreases |actions|
  {
    hide Next, Correlated, IsTold;
    if actions != [] {
      var a, n := actions[0], Next(s, actions[0]);
      StepCorrelates(s, a);
      StepRemembers(s, a);
      StepHears(s, a);
      forall k | from < k <= |n.asked|
        ensures IsTold(n, k)
      {
        if k <= |s.asked| { StillTold(s, a, k); }
      }
      ListenerHearsAll(n, actions[1..], from);
    }
  }

  /** A close tells the listener the peer that left, and that connection is never open again. */
  lemma ExitIsToldOnce(s: State, socket: nat, actions: seq<Action>)
    requires Correlated(s) && Enabled(s, Close(socket))
    ensures s.listening ==> Next(s, Close(socket)).events == s.events + [PeerExited(s.names[socket])]
    ensures !Enabled(Run(Next(s, Close(socket)), actions), Close(socket))
  {
    StepCorrelates(s, Close(socket));
    ClosedStaysClosed(Next(s, Close(socket)), socket, actions);
  }

  predicate IsClosed(s: State, socket: nat) {
    socket in s.names && socket !in s.sockets
  }

  lemma StepStaysClosed(s: State, a: Action, socket: nat)
    requires IsClosed(s, socket)
    ensures IsClosed(Next(s, a), socket)
  {
  }

  lemma {:induction false} ClosedStaysClosed(s: State, socket: nat, actions: seq<Action>)
    requires IsClosed(s, socket)
    ensures IsClosed(Run(s, actions), socket)
    decreases |actions|
  {
    hide Next, IsClosed;
    if actions != [] {
      StepStaysClosed(s, actions[0], socket);
      ClosedStaysClosed(Next(s, actions[0]), socket, actions[1..]);
    }
  }

  // ---------------------------------------------------------------- after a stop

  predicate Stopped(s: State) {
    !s.accepting && s.names.Keys <= s.destroyed
  }

  /** From `s` to `n` no connection was let in, none was written to, and unless someone listens nothing was told. */
  ghost predicate Silent(s: State, n: State, listens: bool) {
    && n.output == s.output && n.names == s.names
    && (!s.listening && !listens ==> !n.listening && n.events == s.events)
  }

  lemma StepStaysStopped(s: State, a: Action)
    requires Correlated(s) && Stopped(s)
    ensures Stopped(Next(s, a)) && Silent(s, Next(s, a), a == Listen)
  {
    hide Numbered;
    if a.Answer? && a.request in s.pending { PendingIsKnown(s, a.request); }
  }

  /**
   After `stopWindows` no peer is served again, whatever happens next: no connection
   is let in, no reply is delivered, and unless someone listens again nothing is told.
   */
  lemma {:induction false} StoppedForGood(s: State, actions: seq<Action>)
    requires Correlated(s) && Stopped(s)
    ensures Stopped(Run(s, actions)) && Silent(s, Run(s, actions), Listen in actions)
    decreases |actions|
  {
    hide Next, Correlated, Stopped;
    if actions != [] {
      StepCorrelates(s, actions[0]);
      StepStaysStopped(s, actions[0]);
      StoppedForGood(Next(s, actions[0]), actions[1..]);
    }
  }

  lemma StopStops(actions: seq<Action>)
    ensures var n := Next(Run(INITIAL, actions), Stop);
            Correlated(n) && Stopped(n) && !n.listening
  {
    EveryRunCorrelates(INITIAL, actions);
    StepCorrelates(Run(INITIAL, actions), Stop);
  }
}
