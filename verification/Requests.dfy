/** Request/response matching of internal/lsp/client.go under concurrency. */
module Requests {
  // There are any number of `send` calls, one reader, and a server that may send
  // anything.  A `send` call is known by a number, and so is the channel it makes.  The
  // steps are the critical sections of the source plus the single channel operations
  // between them.

  import opened Text
  import opened Decimals
  import opened Framing

  /** A decoded message that carries an id.  `isRequest`: it has a method, so it is the
      server's own request; the reader does not look at that. */
  datatype Message = Message(id: int, isRequest: bool, result: Option<string>)

  datatype Call = Waiting(id: int) | Answered(id: int, reply: Message) | TimedOut(id: int)

  /** The reader between two critical sections: about to put a message's value into the
      channel of a call, or not. */
  datatype Reader = Idle | Putting(call: nat, msg: Message)

  /** The fields `send` and `readLoop` share under the lock, with the bytes written. */
  datatype Shared = Shared(nextID: int, pending: map<int, nat>, wire: string)

  // ---- the critical sections ----

  /** Lines 169 to 183: take an id, register the channel, write the frame. */
  function Register(s: Shared, call: nat, body: string): Shared {
    Shared(s.nextID + 1, s.pending[s.nextID + 1 := call], s.wire + Frame(body))
  }

  /** The same for a notification. */
  function Write(s: Shared, body: string): Shared {
    s.(wire := s.wire + Frame(body))
  }

  /** Lines 154 to 157: look the id up and forget it. */
  function Claim(s: Shared, id: int): (Shared, Option<nat>) {
    if id in s.pending then (s.(pending := s.pending - {id}), Some(s.pending[id])) else (s, None)
  }

  /** The client object.  `marshal` stands for encoding the message with its id. */
  class Client {
    var nextID: int
    var pending: map<int, nat>
    var wire: string

    constructor ()
      ensures Value() == Shared(0, map[], "")
    {
      nextID, pending, wire := 0, map[], "";
    }

    function Value(): Shared
      reads this
    {
      Shared(nextID, pending, wire)
    }

    method SendRequest(call: nat, marshal: int -> string) returns (id: int)
      modifies this
      ensures id == old(nextID) + 1
      ensures Value() == Register(old(Value()), call, marshal(id))
      ensures old(wire) <= wire && IsMessage(wire[|old(wire)|..], marshal(id))
    {
      nextID := nextID + 1;
      id := nextID;
      pending := pending[id := call];
      WriteFrame(marshal(id));
    }

    method SendNotification(body: string)
      modifies `wire
      ensures Value() == Write(old(Value()), body)
      ensures old(wire) <= wire && IsMessage(wire[|old(wire)|..], body)
    {
      WriteFrame(body);
    }

    method WriteFrame(data: string)
      modifies `wire
      ensures wire == old(wire) + Frame(data)
      ensures IsMessage(wire[|old(wire)|..], data)
    {
      wire := wire + (LENGTH + Decimal(|data|) + CRLF + CRLF);
      wire := wire + data;
      assert old(wire) + (HeaderOf(data) + data) == (old(wire) + HeaderOf(data)) + data;
      assert wire[|old(wire)|..] == Frame(data);
      FrameIsMessage(data);
    }

    method ClaimPending(id: int) returns (ch: Option<nat>)
      modifies `pending
      ensures (Value(), ch) == Claim(old(Value()), id)
    {
      ch := if id in pending then Some(pending[id]) else None;
      pending := pending - {id};
      assert id !in old(pending) ==> pending == old(pending);
    }
  }

  // ---- the state machine ----

  datatype State = State(
    shared: Shared,
    channels: map<nat, seq<Message>>,  // what is in each call's channel, of capacity 1
    calls: map<nat, Call>,
    reader: Reader,
    puts: seq<int>,                    // the ids whose value was put into a channel, in order
    sent: seq<string>)                 // the bodies written, in lock order

  datatype Event =
    | Send(call: nat, body: string)
    | Notify(body: string)
    | Receive(msg: Message)
    | Put
    | Take(call: nat)
    | Expire(call: nat)

  const INIT := State(Shared(0, map[], ""), map[], map[], Idle, [], [])

  /** One step; None where it cannot happen. */
  function Step(s: State, e: Event): Option<State> {
    match e
    case Send(call, body) =>
      if call in s.calls then None
      else Some(s.(
        shared := Register(s.shared, call, body),
        channels := s.channels[call := []],
        calls := s.calls[call := Waiting(s.shared.nextID + 1)],
        sent := s.sent + [body]))
    case Notify(body) =>
      Some(s.(shared := Write(s.shared, body), sent := s.sent + [body]))
    case Receive(msg) =>
      if s.reader != Idle then None
      else
        var (shared, ch) := Claim(s.shared, msg.id);
        Some(s.(shared := shared, reader := if ch.Some? then Putting(ch.value, msg) else Idle))
    case Put =>
      if s.reader == Idle || s.reader.call !in s.channels || |s.channels[s.reader.call]| >= 1 then None
      else Some(s.(
        channels := s.channels[s.reader.call := s.channels[s.reader.call] + [s.reader.msg]],
        reader := Idle,
        puts := s.puts + [s.reader.msg.id]))
    case Take(call) =>
      if call !in s.calls || !s.calls[call].Waiting? || call !in s.channels || s.channels[call] == [] then None
      else Some(s.(
        calls := s.calls[call := Answered(s.calls[call].id, s.channels[call][0])],
        channels := s.channels[call := s.channels[call][1..]]))
    case Expire(call) =>
      if call !in s.calls || !s.calls[call].Waiting? then None
      else Some(s.(calls := s.calls[call := TimedOut(s.calls[call].id)]))
  }

  /** The events that have happened, latest last. */
  datatype History = Begin | Then(before: History, last: Event)

  /** The state after these events; None if one of them could not happen. */
  function Run(h: History): Option<State> {
    match h
    case Begin => Some(INIT)
    case Then(before, e) =>
      match Run(before)
      case None => None
      case Some(s) => Step(s, e)
  }

  predicate Occurs(h: History, e: Event) {
    h.Then? && (h.last == e || Occurs(h.before, e))
  }

  // ---- invariants ----

  /** Ids count up and belong to one call each. */
  ghost predicate IdsUnique(s: State) {
    && s.shared.nextID >= 0
    && (forall c :: c in s.calls ==> 1 <= s.calls[c].id <= s.shared.nextID)
    && (forall c, d :: c in s.calls && d in s.calls && c != d ==> s.calls[c].id != s.calls[d].id)
  }

  /** An id still pending belongs to a call whose channel is empty. */
  ghost predicate PendingLedger(s: State) {
    forall id :: id in s.shared.pending ==>
      var c := s.shared.pending[id];
      c in s.calls && c in s.channels && s.calls[c].id == id && s.channels[c] == [] && id !in s.puts
  }

  /** So does the id the reader has claimed and not yet put. */
  ghost predicate ReaderLedger(s: State) {
    s.reader.Putting? ==>
      var c, id := s.reader.call, s.reader.msg.id;
      && c in s.calls && c in s.channels && s.calls[c].id == id && s.channels[c] == []
      && id !in s.puts && id !in s.shared.pending
  }

  /** A call's channel holds at most one message, which carries the call's id; a call
      that waits for an id already put has it in its channel. */
  ghost predicate ChannelLedger(s: State) {
    && s.channels.Keys == s.calls.Keys
    && (forall c :: c in s.calls && s.channels[c] != [] ==>
          |s.channels[c]| == 1 && s.channels[c][0].id == s.calls[c].id && s.calls[c].id in s.puts
          && !s.calls[c].Answered?)
    && (forall c :: c in s.calls && s.calls[c].Answered? ==>
          s.calls[c].reply.id == s.calls[c].id && s.calls[c].id in s.puts)
    && (forall c :: c in s.calls && s.calls[c].Waiting? && s.calls[c].id in s.puts ==> s.channels[c] != [])
  }

  ghost predicate Claimed(s: State, id: int) {
    s.reader.Putting? && s.reader.msg.id == id
  }

  /** Every id taken is pending, claimed by the reader, or put; no id was put twice. */
  ghost predicate PutsLedger(s: State) {
    && (forall c :: c in s.calls ==>
          var id := s.calls[c].id; id in s.shared.pending || Claimed(s, id) || id in s.puts)
    && (forall id :: id in s.puts ==> id <= s.shared.nextID)
    && (forall i, j :: 0 <= i < j < |s.puts| ==> s.puts[i] != s.puts[j])
  }

  ghost predicate Inv(s: State) {
    IdsUnique(s) && PendingLedger(s) && ReaderLedger(s) && ChannelLedger(s) && PutsLedger(s)
  }

  lemma {:induction false} StepKeepsIds(s: State, e: Event)
    requires Inv(s) && Step(s, e).Some?
    ensures IdsUnique(Step(s, e).value)
  {
    hide Frame, ReaderLedger, ChannelLedger, PutsLedger;
  }

  lemma {:induction false} StepKeepsPending(s: State, e: Event)
    requires Inv(s) && Step(s, e).Some?
    ensures PendingLedger(Step(s, e).value)
  {
    hide Frame, ChannelLedger;
    var t := Step(s, e).value;
    forall id | id in t.shared.pending
      ensures var c := t.shared.pending[id];
              c in t.calls && c in t.channels && t.calls[c].id == id && t.channels[c] == [] && id !in t.puts
    {
      if id in s.shared.pending {
        var c := s.shared.pending[id];
        assert t.shared.pending[id] == c && t.channels[c] == [];
      }
    }
  }

  lemma {:induction false} StepKeepsReader(s: State, e: Event)
    requires Inv(s) && Step(s, e).Some?
    ensures ReaderLedger(Step(s, e).value)
  {
  }

  lemma {:induction false} PutKeepsChannels(s: State)
    requires Inv(s) && Step(s, Put).Some?
    ensures ChannelLedger(Step(s, Put).value)
  {
    var t, c, id := Step(s, Put).value, s.reader.call, s.reader.msg.id;
    assert t.channels[c] == [s.reader.msg];
    assert t.puts[|s.puts|] == id;
    assert forall x :: x in t.puts <==> x in s.puts || x == id;
  }

  lemma {:induction false} TakeKeepsChannels(s: State, call: nat)
    requires Inv(s) && Step(s, Take(call)).Some?
    ensures ChannelLedger(Step(s, Take(call)).value)
  {
    assert Step(s, Take(call)).value.channels[call] == [];
  }

  lemma {:induction false} SendKeepsChannels(s: State, call: nat, body: string)
    requires Inv(s) && Step(s, Send(call, body)).Some?
    ensures ChannelLedger(Step(s, Send(call, body)).value)
  {
    hide Frame;
    var t := Step(s, Send(call, body)).value;
    assert t.calls[call].id !in s.puts;
  }

  lemma {:induction false} StepKeepsChannels(s: State, e: Event)
    requires Inv(s) && Step(s, e).Some?
    ensures ChannelLedger(Step(s, e).value)
  {
    hide Frame, PendingLedger, ReaderLedger, IdsUnique;
    match e
    case Put => PutKeepsChannels(s);
    case Send(call, body) => SendKeepsChannels(s, call, body);
    case Take(call) => TakeKeepsChannels(s, call);
    case _ =>
  }

  lemma {:induction false} PutKeepsPuts(s: State)
    requires Inv(s) && Step(s, Put).Some?
    ensures PutsLedger(Step(s, Put).value)
  {
    var t, id := Step(s, Put).value, s.reader.msg.id;
    assert t.puts[|s.puts|] == id;
    assert forall x :: x in t.puts <==> x in s.puts || x == id;
  }

  lemma {:induction false} StepKeepsPuts(s: State, e: Event)
    requires Inv(s) && Step(s, e).Some?
    ensures PutsLedger(Step(s, e).value)
  {
    hide Frame, ChannelLedger;
    if e.Put? {
      PutKeepsPuts(s);
    }
  }

  lemma {:induction false} RunKeepsInv(h: History)
    requires Run(h).Some?
    ensures Inv(Run(h).value)
  {
    if h.Then? {
      RunKeepsInv(h.before);
      var s := Run(h.before).value;
      StepKeepsIds(s, h.last);
      StepKeepsPending(s, h.last);
      StepKeepsReader(s, h.last);
      StepKeepsChannels(s, h.last);
      StepKeepsPuts(s, h.last);
    }
  }

  // ---- what every run guarantees ----

  /** A caller only ever receives a value from a message that carries its own id: no
      timeout, duplicate, late or unknown reply changes that. */
  lemma {:induction false} OwnReplyOnly(h: History, call: nat)
    requires Run(h).Some? && call in Run(h).value.calls
    ensures var c := Run(h).value.calls[call];
            c.Answered? ==> c.reply.id == c.id
  {
    RunKeepsInv(h);
  }

  /** Ids are never reused, and no id is answered twice. */
  lemma {:induction false} IdsAnsweredOnce(h: History)
    requires Run(h).Some?
    ensures var s := Run(h).value;
            && (forall c, d :: c in s.calls && d in s.calls && c != d ==> s.calls[c].id != s.calls[d].id)
            && (forall i, j :: 0 <= i < j < |s.puts| ==> s.puts[i] != s.puts[j])
  {
    RunKeepsInv(h);
  }

  /** The reader never blocks putting a value into a channel. */
  lemma {:induction false} ReaderNeverBlocks(h: History)
    requires Run(h).Some? && Run(h).value.reader.Putting?
    ensures Step(Run(h).value, Put).Some?
  {
    RunKeepsInv(h);
  }

  /** No answer is lost: each id is in exactly one place, and a call that waits for an id
      already put can take its answer. */
  lemma {:induction false} NoAnswerLost(h: History, call: nat)
    requires Run(h).Some? && call in Run(h).value.calls
    ensures var s := Run(h).value; var id := s.calls[call].id;
            && (id in s.shared.pending || Claimed(s, id) || id in s.puts)
            && !(id in s.shared.pending && Claimed(s, id))
            && !(id in s.shared.pending && id in s.puts)
            && !(Claimed(s, id) && id in s.puts)
            && (s.calls[call].Waiting? && id in s.puts ==> Step(s, Take(call)).Some?)
  {
    RunKeepsInv(h);
  }

  /** A reply gets through: when a message arrives under the id of a call that still waits,
      the reader can take it, put it and go on, and the call can return just that message;
      nothing else changes for any call. */
  lemma {:induction false} ReplyGetsThrough(h: History, call: nat, m: Message)
    requires Run(h).Some? && Run(h).value.reader == Idle && call in Run(h).value.calls
    requires var c := Run(h).value.calls[call]; c.Waiting? && c.id == m.id && c.id !in Run(h).value.puts
    ensures var t := Run(Then(Then(Then(h, Receive(m)), Put), Take(call)));
            t.Some? && t.value.calls == Run(h).value.calls[call := Answered(m.id, m)] && t.value.reader == Idle
  {
    RunKeepsInv(h);
    var s := Run(h).value;
    assert m.id in s.shared.pending && s.shared.pending[m.id] == call by {
      assert m.id in s.shared.pending;
      var d := s.shared.pending[m.id];
      assert s.calls[d].id == m.id;
    }
    var received := Step(s, Receive(m)).value;
    assert received.reader == Putting(call, m);
    assert Run(Then(h, Receive(m))) == Some(received);
    var put := Step(received, Put).value;
    assert Run(Then(Then(h, Receive(m)), Put)) == Some(put);
    assert put.channels[call] == [m];
  }

  // ---- frames ----

  lemma {:induction false} StepKeepsWire(s: State, e: Event)
    requires s.shared.wire == Frames(s.sent) && Step(s, e).Some?
    ensures Step(s, e).value.shared.wire == Frames(Step(s, e).value.sent)
  {
    if e.Send? || e.Notify? {
      FramesConcat(s.sent, [e.body]);
      assert Frames([e.body]) == Frame(e.body) + "" == Frame(e.body);
    }
  }

  lemma {:induction false} WireIsFrames(h: History)
    requires Run(h).Some?
    ensures var s := Run(h).value; s.shared.wire == Frames(s.sent)
  {
    if h.Then? {
      WireIsFrames(h.before);
      StepKeepsWire(Run(h.before).value, h.last);
    }
  }

  /** However the senders interleave, the wire holds one whole message of the Base Protocol
      after the other, with their bodies in lock order. */
  lemma {:induction false} EveryRunWritesMessages(h: History)
    requires Run(h).Some?
    ensures var s := Run(h).value; IsStream(s.shared.wire, s.sent)
  {
    WireIsFrames(h);
    FramesAreStream(Run(h).value.sent);
  }

  /** However the senders interleave, a reader of what they wrote recovers exactly their
      messages, in lock order. */
  lemma {:induction false} EveryRunReadsBack(h: History)
    requires Run(h).Some?
    requires forall k :: 0 <= k < |Run(h).value.sent| ==> Sendable(Run(h).value.sent[k])
    ensures var s := Run(h).value; ReadBodies(s.shared.wire) == Bodies(s.sent, Eof)
  {
    var s := Run(h).value;
    WireIsFrames(h);
    ReaderRecoversBodies(s.sent, "x", 0);
    assert s.shared.wire + Frame("x")[..0] == s.shared.wire;
  }

  // ---- messages of the server's own ----

  /** A request of the server's own, with an id that happens to be pending, arrives. */
  predicate Clash(s: State, e: Event) {
    e.Receive? && e.msg.isRequest && s.reader == Idle && e.msg.id in s.shared.pending
  }

  /** m is with the reader, in a channel, or has been taken by a caller. */
  ghost predicate Holds(s: State, m: Message) {
    || (s.reader.Putting? && s.reader.msg == m)
    || (exists c :: c in s.channels && m in s.channels[c])
    || (exists c :: c in s.calls && s.calls[c].Answered? && s.calls[c].reply == m)
  }

  /** The step makes the client hold m. */
  predicate Accepts(s: State, e: Event, m: Message) {
    e == Receive(m) && s.reader == Idle && m.id in s.shared.pending
  }

  lemma {:induction false} StepHolds(s: State, e: Event, m: Message)
    requires Inv(s) && Step(s, e).Some?
    ensures Holds(Step(s, e).value, m) <==> Holds(s, m) || Accepts(s, e, m)
  {
    match e
    case Put => PutHolds(s, m);
    case Take(call) => TakeHolds(s, call, m);
    case Send(call, body) => SendHolds(s, call, body, m);
    case Expire(call) => ExpireHolds(s, call, m);
    case _ =>
  }

  lemma {:induction false} PutHolds(s: State, m: Message)
    requires Inv(s) && Step(s, Put).Some?
    ensures Holds(Step(s, Put).value, m) <==> Holds(s, m)
  {
    var t, c := Step(s, Put).value, s.reader.call;
    assert t.channels[c] == [s.reader.msg] && s.channels[c] == [];
    assert forall d :: d in s.channels && d != c ==> t.channels[d] == s.channels[d];
    assert s.reader.msg in t.channels[c];
  }

  lemma {:induction false} TakeHolds(s: State, call: nat, m: Message)
    requires Inv(s) && Step(s, Take(call)).Some?
    ensures Holds(Step(s, Take(call)).value, m) <==> Holds(s, m)
  {
    hide PutsLedger, PendingLedger, ReaderLedger, IdsUnique;
    var t := Step(s, Take(call)).value;
    assert s.channels[call] == [s.channels[call][0]];
    assert t.calls[call].Answered? && t.calls[call].reply == s.channels[call][0];
    assert forall d :: d in s.channels && d != call ==> t.channels[d] == s.channels[d];
    assert forall d :: d in s.calls && d != call ==> t.calls[d] == s.calls[d];
  }

  lemma {:induction false} SendHolds(s: State, call: nat, body: string, m: Message)
    requires Inv(s) && Step(s, Send(call, body)).Some?
    ensures Holds(Step(s, Send(call, body)).value, m) <==> Holds(s, m)
  {
    var t := Step(s, Send(call, body)).value;
    assert t.channels[call] == [] && call !in s.channels;
    assert forall d :: d in s.channels ==> t.channels[d] == s.channels[d];
    assert forall d :: d in s.calls ==> t.calls[d] == s.calls[d];
  }

  lemma {:induction false} ExpireHolds(s: State, call: nat, m: Message)
    requires Inv(s) && Step(s, Expire(call)).Some?
    ensures Holds(Step(s, Expire(call)).value, m) <==> Holds(s, m)
  {
    var t := Step(s, Expire(call)).value;
    assert forall d :: d in s.calls && d != call ==> t.calls[d] == s.calls[d];
  }

  /** Every answer came from the server. */
  lemma {:induction false} HeldWasReceived(h: History, m: Message)
    requires Run(h).Some? && Holds(Run(h).value, m)
    ensures Occurs(h, Receive(m))
  {
    if h.Then? {
      RunKeepsInv(h.before);
      StepHolds(Run(h.before).value, h.last, m);
      if Holds(Run(h.before).value, m) {
        HeldWasReceived(h.before, m);
      }
    }
  }

  /** Some request of the server's own is treated as an answer. */
  ghost predicate Foreign(s: State) {
    exists m :: Holds(s, m) && m.isRequest
  }

  /** Some step of the run was a clash. */
  predicate EverClashed(h: History)
    requires Run(h).Some?
  {
    h.Then? && (EverClashed(h.before) || Clash(Run(h.before).value, h.last))
  }

  /** Answers are responses exactly as long as no request of the server's own arrives
      under an id that is pending: the reader does not tell them apart. */
  lemma {:induction false} AnswersAreResponsesExactlyWhen(h: History)
    requires Run(h).Some?
    ensures Foreign(Run(h).value) <==> EverClashed(h)
  {
    if h.Then? {
      AnswersAreResponsesExactlyWhen(h.before);
      RunKeepsInv(h.before);
      StepForeign(Run(h.before).value, h.last);
    }
  }

  /** For instance, when the server numbers its own first request like the client's: the
      first call gets that request as its answer. */
  lemma {:induction false} RequestTakenForAnswer(body: string, m: Message)
    requires m.id == 1 && m.isRequest
    ensures var h := Then(Then(Then(Then(Begin, Send(0, body)), Receive(m)), Put), Take(0));
            && Run(h).Some? && EverClashed(h)
            && 0 in Run(h).value.calls && Run(h).value.calls[0] == Answered(1, m)
  {
    var sent := Then(Begin, Send(0, body));
    var received := Then(sent, Receive(m));
    var put := Then(received, Put);
    var taken := Then(put, Take(0));
    assert Run(sent) == Step(INIT, Send(0, body));
    var s := Run(sent).value;
    assert s.shared.pending == map[1 := 0] && s.reader == Idle;
    assert Run(received) == Step(s, Receive(m));
    var t := Run(received).value;
    assert t.reader == Putting(0, m) && t.channels == map[0 := []];
    assert Run(put) == Step(t, Put);
    assert Run(put).value.channels[0] == [m];
    assert Run(taken) == Step(Run(put).value, Take(0));
    assert EverClashed(received);
  }

  lemma {:induction false} StepForeign(s: State, e: Event)
    requires Inv(s) && Step(s, e).Some?
    ensures Foreign(Step(s, e).value) <==> Foreign(s) || Clash(s, e)
  {
    var t := Step(s, e).value;
    if m :| Holds(t, m) && m.isRequest {
      StepHolds(s, e, m);
    }
    if m :| Holds(s, m) && m.isRequest {
      StepHolds(s, e, m);
    }
    if Clash(s, e) {
      StepHolds(s, e, e.msg);
    }
  }
}
