/** The window socket client of scripts/nightly-client-harness-nightly.ts; a run is an arbitrary list of actions. */
module HarnessClient {
  import opened HarnessWire
  import opened Prelude

  /** A request written to the socket, and the exchange that wrote it. */
  datatype Sent = Sent(exchange: nat, line: Line)

  /**
   The client's variables and three histories: `sent`, the lines written, `asks`, what
   each exchange begun asks, and `settled`, what its promise was resolved with, call
   by call.
   `attached` is false once the close handler has dropped the socket.
   */
  datatype State = State(
    nextId: int, waiting: map<int, nat>, attached: bool, destroyed: bool,
    sent: seq<Sent>, asks: seq<Ask>, settled: seq<seq<Reply>>)

  datatype Action = Exchange(ask: Ask) | Hear(id: Option<int>, reply: Reply) | Die | Close

  const INITIAL := State(1, map[], true, false, [], [], [])

  function Settle(s: State, exchange: nat, reply: Reply): seq<seq<Reply>>
    requires exchange < |s.settled|
  {
    s.settled[exchange := s.settled[exchange] + [reply]]
  }

  function Begun(s: State, ask: Ask): State {
    if !s.attached || s.destroyed then s.(asks := s.asks + [ask], settled := s.settled + [[Unavailable]])
    else
      s.(nextId := s.nextId + 1,
         asks := s.asks + [ask],
         waiting := s.waiting[s.nextId := |s.settled|],
         sent := s.sent + [Sent(|s.settled|, Request(Whole(s.nextId), ask))],
         settled := s.settled + [[]])
  }

  function Heard(s: State, id: Option<int>, reply: Reply): State {
    if id.None? || id.value !in s.waiting || s.waiting[id.value] >= |s.settled| then s
    else
      s.(waiting := s.waiting - {id.value}, settled := Settle(s, s.waiting[id.value], reply))
  }

  predicate Waiting(s: State, exchange: nat) {
    exists id :: id in s.waiting && s.waiting[id] == exchange
  }

  /** Every exchange still waiting is refused, and none is left. */
  function Closed(s: State): State {
    s.(attached := false, destroyed := true, waiting := map[],
       settled := seq(|s.settled|, e requires 0 <= e < |s.settled| =>
         if Waiting(s, e) then s.settled[e] + [Unavailable] else s.settled[e]))
  }

  function Next(s: State, a: Action): State {
    match a
    case Exchange(ask) => Begun(s, ask)
    case Hear(id, reply) => Heard(s, id, reply)
    case Die => s.(destroyed := true)
    case Close => if s.attached then Closed(s) else s
  }

  function Run(s: State, actions: seq<Action>): State
    decreases |actions|
  {
    if actions == [] then s else Run(Next(s, actions[0]), actions[1..])
  }

  // ---------------------------------------------------------------- what every step keeps

  predicate SaysItsAsk(s: State, i: nat) {
    && i < |s.sent| && s.sent[i].exchange < |s.asks|
    && s.sent[i].line == Request(Whole(i + 1), s.asks[s.sent[i].exchange])
  }

  /** The id of a line is its place in the order of sending, it says what its exchange asks, and no exchange sends twice. */
  ghost predicate Numbered(s: State) {
    && s.nextId == |s.sent| + 1 && |s.asks| == |s.settled|
    && (forall i :: 0 <= i < |s.sent| ==> s.sent[i].exchange < |s.settled| && SaysItsAsk(s, i))
    && (forall i, j :: 0 <= i < j < |s.sent| ==> s.sent[i].exchange < s.sent[j].exchange)
  }

  /** An id waits exactly while the exchange that sent it is unsettled. */
  ghost predicate Waits(s: State) {
    && (forall id :: id in s.waiting ==> 1 <= id <= |s.sent| && s.waiting[id] == s.sent[id - 1].exchange)
    && (forall i :: 0 <= i < |s.sent| && s.sent[i].exchange < |s.settled| ==>
          (i + 1 in s.waiting <==> s.settled[s.sent[i].exchange] == []))
    && (!s.attached ==> s.waiting == map[])
  }

  /** Each exchange is settled at most once; one that was never sent was refused. */
  ghost predicate SettledOnce(s: State) {
    forall e :: 0 <= e < |s.settled| ==>
      && |s.settled[e]| <= 1
      && (s.settled[e] == [Unavailable] || exists i :: 0 <= i < |s.sent| && s.sent[i].exchange == e)
  }

  ghost predicate Kept(s: State) {
    Numbered(s) && Waits(s) && SettledOnce(s)
  }

  /** A waiting id names an exchange that has begun, which is still unsettled. */
  lemma WaitingIsUnsettled(s: State, id: int)
    requires Numbered(s) && Waits(s) && id in s.waiting
    ensures s.waiting[id] < |s.settled| && s.settled[s.waiting[id]] == []
    ensures forall other :: other in s.waiting && s.waiting[other] == s.waiting[id] ==> other == id
  {
  }

  lemma BegunNumbers(s: State, ask: Ask)
    requires Numbered(s)
    ensures Numbered(Begun(s, ask))
  {
    var n := Begun(s, ask);
    assert forall i :: 0 <= i < |s.sent| ==> n.sent[i] == s.sent[i] && SaysItsAsk(s, i);
    assert forall e :: 0 <= e < |s.asks| ==> n.asks[e] == s.asks[e];
  }

  lemma BegunWaits(s: State, ask: Ask)
    requires Numbered(s) && Waits(s)
    ensures Waits(Begun(s, ask))
  {
    hide SaysItsAsk;
    var n := Begun(s, ask);
    assert forall i :: 0 <= i < |s.sent| ==> n.sent[i] == s.sent[i];
    assert forall e :: 0 <= e < |s.settled| ==> n.settled[e] == s.settled[e];
  }

  lemma BegunSettles(s: State, ask: Ask)
    requires SettledOnce(s)
    ensures SettledOnce(Begun(s, ask))
  {
    var n := Begun(s, ask);
    forall e | 0 <= e < |n.settled|
      ensures |n.settled[e]| <= 1
      ensures n.settled[e] == [Unavailable] || exists i :: 0 <= i < |n.sent| && n.sent[i].exchange == e
    {
      if e < |s.settled| && s.settled[e] != [Unavailable] {
        var i :| 0 <= i < |s.sent| && s.sent[i].exchange == e;
        assert n.sent[i].exchange == e;
      } else if e == |s.settled| && s.attached && !s.destroyed {
        assert n.sent[|s.sent|].exchange == e;
      }
    }
  }

  lemma BegunKeeps(s: State, ask: Ask)
    requires Kept(s)
    ensures Kept(Begun(s, ask))
  {
    hide Begun, Numbered, Waits, SettledOnce;
    BegunNumbers(s, ask);
    BegunWaits(s, ask);
    BegunSettles(s, ask);
  }

  lemma HeardKeeps(s: State, id: Option<int>, reply: Reply)
    requires Kept(s)
    ensures Kept(Heard(s, id, reply))
  {
    if id.Some? && id.value in s.waiting {
      WaitingIsUnsettled(s, id.value);
      var e := s.waiting[id.value];
      assert s.sent[id.value - 1].exchange == e;
      var n := Heard(s, id, reply);
      assert n.settled[e] == [reply];
      forall i | 0 <= i < |n.sent|
        ensures i + 1 in n.waiting <==> n.settled[n.sent[i].exchange] == []
      {
        if i < id.value - 1 || i > id.value - 1 { assert n.settled[n.sent[i].exchange] == s.settled[s.sent[i].exchange]; }
      }
    }
  }

  lemma UnsettledWaits(s: State, e: nat)
    requires Kept(s) && e < |s.settled| && s.settled[e] == []
    ensures Waiting(s, e)
  {
  }

  /** The close refuses exactly the exchanges not settled yet. */
  lemma ClosedSettles(s: State, e: nat)
    requires Kept(s) && e < |s.settled|
    ensures Closed(s).settled[e] == if s.settled[e] == [] then [Unavailable] else s.settled[e]
  {
  }

  lemma ClosedKeeps(s: State)
    requires Kept(s)
    ensures Kept(Closed(s))
  {
  }

  lemma StepKeeps(s: State, a: Action)
    requires Kept(s)
    ensures Kept(Next(s, a))
  {
    match a
    case Exchange(ask) => BegunKeeps(s, ask);
    case Hear(id, reply) => HeardKeeps(s, id, reply);
    case Die =>
    case Close => if s.attached { ClosedKeeps(s); }
  }

  /** In every run each exchange is settled at most once, and only a sent one can still be waiting. */
  lemma {:induction false} EveryRunKeeps(s: State, actions: seq<Action>)
    requires Kept(s)
    ensures Kept(Run(s, actions))
    decreases |actions|
  {
    if actions != [] {
      StepKeeps(s, actions[0]);
      EveryRunKeeps(Next(s, actions[0]), actions[1..]);
    }
  }

  // ---------------------------------------------------------------- what a step does

  /**
   Beginning an exchange, in every run: while the socket stands one line is written,
   with the next id and what the exchange asks, and the exchange waits. Otherwise it is
   refused at once, and nothing is written.
   */
  lemma BeginningIsExact(actions: seq<Action>, ask: Ask)
    ensures var s := Run(INITIAL, actions);
            var n := Next(s, Exchange(ask));
            && n.attached == s.attached && n.destroyed == s.destroyed && n.asks == s.asks + [ask]
            && (s.attached && !s.destroyed ==>
                  && n.sent == s.sent + [Sent(|s.settled|, Request(Whole(|s.sent| + 1), ask))]
                  && n.settled == s.settled + [[]])
            && (!s.attached || s.destroyed ==> n.sent == s.sent && n.settled == s.settled + [[Unavailable]])
  {
    hide Run, Waits, SettledOnce;
    EveryRunKeeps(INITIAL, actions);
  }

  /** Whether the id names a line whose exchange is still unsettled: only a whole number can. */
  predicate Names(s: State, id: Option<Number>, i: nat) {
    && i < |s.sent| && id == Some(Whole(i + 1))
    && s.sent[i].exchange < |s.settled| && s.settled[s.sent[i].exchange] == []
  }

  /**
   Hearing a line, in every run: if its id names a line sent whose exchange is
   unsettled, that exchange has exactly this reply, and any other line changes nothing.
   */
  lemma HearingIsExact(actions: seq<Action>, id: Option<Number>, reply: Reply)
    ensures var s := Run(INITIAL, actions);
            var n := Next(s, Hear(Key(id), reply));
            && (forall i: nat | Names(s, id, i) ::
                  n.settled == s.settled[s.sent[i].exchange := [reply]]
                  && n == s.(settled := n.settled, waiting := n.waiting))
            && ((forall i: nat :: !Names(s, id, i)) ==> n == s)
  {
    hide Run, Kept;
    EveryRunKeeps(INITIAL, actions);
    KeptHears(Run(INITIAL, actions), id, reply);
  }

  lemma KeptHears(s: State, id: Option<Number>, reply: Reply)
    requires Kept(s)
    ensures var n := Next(s, Hear(Key(id), reply));
            && (forall i: nat | Names(s, id, i) ::
                  n.settled == s.settled[s.sent[i].exchange := [reply]]
                  && n == s.(settled := n.settled, waiting := n.waiting))
            && ((forall i: nat :: !Names(s, id, i)) ==> n == s)
  {
    hide SettledOnce, SaysItsAsk;
    if Key(id).Some? && Key(id).value in s.waiting {
      WaitingIsUnsettled(s, Key(id).value);
      assert Names(s, id, Key(id).value - 1);
    }
    forall i: nat | Names(s, id, i)
      ensures i + 1 in s.waiting && s.waiting[i + 1] == s.sent[i].exchange
    {
      assert i + 1 in s.waiting <==> s.settled[s.sent[i].exchange] == [];
    }
    assert [] + [reply] == [reply];
  }

  /** A socket that dies writes nothing more; its exchanges wait for the close. */
  lemma DyingIsExact(s: State)
    ensures Next(s, Die) == s.(destroyed := true) && !Next(s, Close).attached
    ensures s.attached ==> Next(s, Close).destroyed
    ensures Next(s, Close).sent == s.sent && Next(s, Close).asks == s.asks
  {
  }

  lemma SendsOnce(s: State, i: nat, j: nat)
    requires Numbered(s) && i < |s.sent| && j < |s.sent| && s.sent[i].exchange == s.sent[j].exchange
    ensures i == j
  {
  }

  /** Whether the exchange was sent and the socket has not closed: what answers it then is a line. */
  ghost predicate Standing(s: State, e: nat) {
    s.attached && exists i :: 0 <= i < |s.sent| && s.sent[i].exchange == e
  }

  /** An answer the client did not make up itself. */
  ghost predicate FromALine(s: State, e: nat, reply: Reply) {
    reply != Unavailable || Standing(s, e)
  }

  /** The only way to an answer that the client did not make up is a line bearing the exchange's own id. */
  lemma OnlyALineAnswers(s: State, a: Action, e: nat, reply: Reply)
    requires Kept(s) && FromALine(Next(s, a), e, reply)
    requires e < |Next(s, a).settled| && Next(s, a).settled[e] == [reply]
    requires !(e < |s.settled| && s.settled[e] == [reply])
    ensures a.Hear? && a.reply == reply && a.id.Some? && a.id.value in s.waiting && s.waiting[a.id.value] == e
  {
    match a
    case Exchange(ask) =>
    case Hear(id, _) =>
      if id.Some? && id.value in s.waiting {
        WaitingIsUnsettled(s, id.value);
        assert Next(s, a).settled[s.waiting[id.value]] == [a.reply];
      }
    case Die =>
    case Close =>
      if s.attached { ClosedSettles(s, e); }
  }

  /** An exchange that has its answer keeps it; a closed socket stays closed; what stands after a step stood before. */
  lemma StepKeepsAnswers(s: State, a: Action, e: nat)
    requires Kept(s) && e < |s.settled|
    ensures e < |Next(s, a).settled| && (s.settled[e] != [] ==> Next(s, a).settled[e] == s.settled[e])
    ensures Next(s, a).attached ==> s.attached
    ensures Standing(Next(s, a), e) ==> Standing(s, e)
  {
    hide SaysItsAsk;
    match a
    case Exchange(ask) =>
    case Hear(id, _) => if id.Some? && id.value in s.waiting { WaitingIsUnsettled(s, id.value); }
    case Die =>
    case Close => if s.attached { ClosedSettles(s, e); }
  }

  /** An exchange that sent a line has begun, and until the close nothing but a line answers it. */
  lemma SentHasBegun(s: State, i: nat)
    requires Kept(s) && i < |s.sent|
    ensures s.sent[i].exchange < |s.settled| && |s.settled[s.sent[i].exchange]| <= 1
    ensures s.attached ==> Standing(s, s.sent[i].exchange)
  {
  }

  // ---------------------------------------------------------------- after the close

  /** What a closed client is: every exchange begun, before or after the close, has its one answer. */
  ghost predicate Finished(s: State) {
    !s.attached && s.waiting == map[] && forall e :: 0 <= e < |s.settled| ==> |s.settled[e]| == 1
  }

  /**
   Once the socket has closed no exchange is left waiting; the exchanges settled keep
   their answers, and every later one is refused at once, whatever lines still arrive.
   */
  lemma {:induction false} ClosedForGood(s: State, actions: seq<Action>)
    requires Finished(s)
    ensures var n := Run(s, actions);
            && Finished(n) && n.sent == s.sent && |s.settled| <= |n.settled|
            && (forall e :: 0 <= e < |s.settled| ==> n.settled[e] == s.settled[e])
            && (forall e :: |s.settled| <= e < |n.settled| ==> n.settled[e] == [Unavailable])
    decreases |actions|
  {
    if actions != [] {
      ClosedForGood(Next(s, actions[0]), actions[1..]);
    }
  }

  lemma CloseFinishes(actions: seq<Action>)
    ensures var s := Run(INITIAL, actions);
            var n := Next(s, Close);
            && Finished(n)
            && (s.attached ==> forall e :: 0 <= e < |s.settled| ==>
                  n.settled[e] == if s.settled[e] == [] then [Unavailable] else s.settled[e])
  {
    EveryRunKeeps(INITIAL, actions);
    var s := Run(INITIAL, actions);
    var n := Next(s, Close);
    StepKeeps(s, Close);
    assert !n.attached;
    forall e | 0 <= e < |s.settled|
      ensures |n.settled[e]| == 1
      ensures s.attached ==> n.settled[e] == if s.settled[e] == [] then [Unavailable] else s.settled[e]
    {
      if s.attached {
        ClosedSettles(s, e);
      } else if s.settled[e] == [] {
        UnsettledWaits(s, e);
      }
    }
  }

  // ---------------------------------------------------------------- the handlers

  /** Whether the close loop, with `left` still to do, has come to the exchange. */
  ghost predicate RefusedAlready(waiting: map<int, nat>, left: set<int>, exchange: nat) {
    exists id :: id in waiting && id !in left && waiting[id] == exchange
  }

  /** The closures of `main`; each is one step of `Next`. */
  class WindowClient {
    var nextId: int
    var waiting: map<int, nat>
    var attached: bool
    var destroyed: bool
    var sent: seq<Sent>
    ghost var asks: seq<Ask>
    var settled: seq<seq<Reply>>

    ghost function Now(): State
      reads this
    {
      State(nextId, waiting, attached, destroyed, sent, asks, settled)
    }

    constructor ()
      ensures Now() == INITIAL
    {
      nextId, waiting, attached, destroyed, sent, asks, settled := 1, map[], true, false, [], [], [];
    }

    method Resolve(exchange: nat, reply: Reply)
      requires exchange < |settled|
      modifies this`settled
      ensures settled == Settle(old(Now()), exchange, reply)
    {
      settled := settled[exchange := settled[exchange] + [reply]];
    }

    method BeginExchange(ask: Ask) returns (exchange: nat)
      modifies this
      ensures Now() == Next(old(Now()), Exchange(ask))
      ensures exchange == |old(settled)| < |settled|
    {
      exchange := |settled|;
      settled := settled + [[]];
      asks := asks + [ask];
      if !attached || destroyed {
        Resolve(exchange, Unavailable);
        assert [] + [Unavailable] == [Unavailable];
        assert settled == old(settled) + [[Unavailable]];
        return;
      }
      var id := nextId;
      nextId := nextId + 1;
      waiting := waiting[id := exchange];
      sent := sent + [Sent(exchange, Request(Whole(id), ask))];
    }

    method OnLine(id: Option<Number>, reply: Reply)
      requires Kept(Now())
      modifies this
      ensures Now() == Next(old(Now()), Hear(Key(id), reply))
    {
      var key := Key(id);
      if key.None? || key.value !in waiting { return; }
      WaitingIsUnsettled(Now(), key.value);
      Resolve(waiting[key.value], reply);
      waiting := waiting - {key.value};
    }

    method OnClose()
      requires attached && Kept(Now())
      modifies this
      ensures Now() == Next(old(Now()), Close)
    {
      hide Begun, Heard, SettledOnce, Numbered, Waits;
      attached := false;
      destroyed := true;
      var left := waiting.Keys;
      while exists id :: id in left
        invariant forall id :: id in left ==> id in waiting
        invariant |settled| == |old(settled)|
        invariant forall e: nat :: e < |settled| ==>
          settled[e] == if RefusedAlready(waiting, left, e) then old(settled)[e] + [Unavailable] else old(settled)[e]
        decreases |left|
        modifies this`settled
      {
        var id :| id in left;
        WaitingIsUnsettled(old(Now()), id);
        left := left - {id};
        Resolve(waiting[id], Unavailable);
        assert RefusedAlready(waiting, left, waiting[id]);
      }
      assert forall e: nat :: RefusedAlready(waiting, left, e) == Waiting(old(Now()), e);
      assert settled == Closed(old(Now())).settled;
      waiting := map[];
    }
  }
}
