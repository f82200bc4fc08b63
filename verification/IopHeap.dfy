/** The IOP-heap part of the SBIOS: one mutex around one packet that is both command and reply. */
module IopHeap {
  import opened SifRpc

  datatype Kind = Init | Alloc(size: int) | Free(addr: int)

  /** `bound` is the flag in `_ih_caps`; `packet` is the union of size and iopaddr. */
  datatype State = State(mutex: bool, errors: nat, bound: bool, server: int, packet: int, link: Link<Kind>)

  datatype Event =
    | Request(kind: Kind, accepts: bool)
    | Reply(i: nat, word: int)
    | Complete(i: nat)

  /** What an accepted call puts in the packet. */
  function Sent(kind: Kind): seq<int> {
    match kind
    case Init => []
    case Alloc(size) => [size]
    case Free(addr) => [addr]
  }

  function DoCall(s: State, kind: Kind, accepts: bool): (int, State) {
    if kind.Init? && s.bound then (0, s.(link := s.link.Answer(Init, 0)))
    else if !kind.Init? && !s.bound then (-1, s)
    else if s.mutex then (-2, s)
    else
      var packet := if kind.Init? then s.packet else Sent(kind)[0];
      if accepts then (0, s.(mutex := true, packet := packet, link := s.link.Accept(kind, Sent(kind))))
      else (-SIF_RPCE_SENDP, s.(packet := packet))
  }

  predicate CanReply(link: Link<Kind>, i: nat) {
    i < |link.pending| && link.pending[i].reply.None?
  }

  predicate CanComplete(link: Link<Kind>, i: nat) {
    i < |link.pending| && link.pending[i].reply.Some?
  }

  function Land(s: State, i: nat, word: int): State
    requires CanReply(s.link, i)
  {
    var link := s.link.Land(i, [word]);
    if s.link.pending[i].kind.Init? then s.(server := word, link := link) else s.(packet := word, link := link)
  }

  /** iopHeapInitCallback or iopHeapCallback. */
  function Callback(s: State, i: nat): State
    requires CanComplete(s.link, i)
  {
    var errors := if s.mutex then s.errors else s.errors + 1;
    if s.link.pending[i].kind.Init? then
      s.(mutex := false, errors := errors, bound := s.bound || s.server != 0,
         link := s.link.Finish(i, if s.server != 0 then 0 else -1, []))
    else
      s.(mutex := false, errors := errors, link := s.link.Finish(i, s.packet, []))
  }

  function Step(s: State, e: Event): State {
    match e
    case Request(kind, accepts) => DoCall(s, kind, accepts).1
    case Reply(i, word) => if CanReply(s.link, i) then Land(s, i, word) else s
    case Complete(i) => if CanComplete(s.link, i) then Callback(s, i) else s
  }

  function Outcome(kind: Kind, reply: int): int {
    if kind.Init? then (if reply != 0 then 0 else -1) else reply
  }

  predicate Honest(e: EndCall<Kind>) {
    if |e.reply| == 1 then e.result == Outcome(e.kind, e.reply[0]) else e.kind == Init && e.result == 0
  }

  /** The packet still holds the command, or already its own reply. */
  predicate Intact(s: State, r: SifRpc.Request<Kind>) {
    && (r.reply.Some? ==> |r.reply.value| == 1)
    && (r.kind.Init? ==> !s.bound && (r.reply.Some? ==> s.server == r.reply.value[0]))
    && r.sent == Sent(r.kind)
    && (!r.kind.Init? ==> s.bound && [s.packet] == (if r.reply.Some? then r.reply.value else r.sent))
  }

  /** An initialisation that found the server. */
  predicate Found(e: EndCall<Kind>) {
    e.kind.Init? && |e.reply| == 1 && e.reply[0] != 0
  }

  ghost predicate BoundByReply(bound: bool, ended: seq<EndCall<Kind>>) {
    bound <==> exists k :: 0 <= k < |ended| && Found(ended[k])
  }

  ghost predicate Inv(s: State) {
    && s.errors == 0
    && BoundByReply(s.bound, s.link.ended)
    && s.link.Conserved()
    && |s.link.pending| == (if s.mutex then 1 else 0)
    && (s.mutex ==> Intact(s, s.link.pending[0]))
    && (forall e :: e in s.link.ended ==> Honest(e))
  }

  lemma CallKeeps(s: State, kind: Kind, accepts: bool)
    requires Inv(s)
    ensures Inv(DoCall(s, kind, accepts).1)
  {
    AcceptConserves(s.link, kind, Sent(kind));
    AnswerConserves(s.link, Init, 0);
    OneMoreEnd(s.link.ended, s.link.Answer(Init, 0).ended);
  }

  lemma OneMoreEnd(ended: seq<EndCall<Kind>>, more: seq<EndCall<Kind>>)
    requires |more| == |ended| + 1 && more[..|ended|] == ended
    ensures (exists k :: 0 <= k < |more| && Found(more[k])) <==>
            (exists k :: 0 <= k < |ended| && Found(ended[k])) || Found(more[|ended|])
  {
    assert forall k :: 0 <= k < |ended| ==> more[k] == ended[k];
  }

  lemma LandKeeps(s: State, i: nat, word: int)
    requires Inv(s) && CanReply(s.link, i)
    ensures Inv(Land(s, i, word))
  {
    LandConserves(s.link, i, [word]);
  }

  lemma StepKeeps(s: State, e: Event)
    requires Inv(s)
    ensures Inv(Step(s, e))
  {
    hide Inv, DoCall, Land, Callback;
    match e
    case Request(kind, accepts) => CallKeeps(s, kind, accepts);
    case Reply(i, word) => if CanReply(s.link, i) { LandKeeps(s, i, word); }
    case Complete(i) => if CanComplete(s.link, i) { CallbackKeeps(s, i); }
  }

  lemma CallbackKeeps(s: State, i: nat)
    requires Inv(s) && CanComplete(s.link, i)
    ensures Inv(Callback(s, i))
  {
    var end := Callback(s, i).link.ended[|s.link.ended|];
    FinishConserves(s.link, i, end.result, []);
    OneMoreEnd(s.link.ended, Callback(s, i).link.ended);
    assert Honest(end);
  }

  ghost function Run(s: State, events: seq<Event>): (t: State)
    requires Inv(s)
    ensures Inv(t)
    decreases |events|
  {
    if events == [] then s
    else
      StepKeeps(s, events[0]);
      Run(Step(s, events[0]), events[1..])
  }

  ghost predicate PowerOn(s: State) {
    !s.mutex && !s.bound && s.errors == 0 && s.link == Link(0, [], [])
  }

  ghost function Reached(s: State, events: seq<Event>): (t: State)
    requires PowerOn(s)
    ensures Inv(t)
  {
    assert Range(0) == [];
    Run(s, events)
  }

  /** Over every run: the mutex is held exactly while one request is in flight, no unlock finds it free,
      the shared packet belongs to that request, and each accepted call ends once with its own reply. */
  lemma OneRequestOwnsThePacket(s: State, events: seq<Event>, id: nat)
    requires PowerOn(s)
    ensures var t := Reached(s, events);
            && t.errors == 0
            && |t.link.pending| == (if t.mutex then 1 else 0)
            && (t.mutex && !t.link.pending[0].kind.Init? ==>
                  [t.packet] == (if t.link.pending[0].reply.Some? then t.link.pending[0].reply.value else t.link.pending[0].sent))
            && multiset(Ids(t.link.pending))[id] + multiset(EndIds(t.link.ended))[id] == (if id < t.link.issued then 1 else 0)
            && (forall e :: e in t.link.ended ==> Honest(e))
  {
    ExactlyOnce(Reached(s, events).link, id);
  }

  /** Over every run the heap is bound exactly when some initialisation has been answered with a server. */
  lemma BoundByServer(s: State, events: seq<Event>)
    requires PowerOn(s)
    ensures var t := Reached(s, events);
            t.bound <==> exists k :: 0 <= k < |t.link.ended| && Found(t.link.ended[k])
  {}

  /** A call returns 0 exactly when it is accepted; otherwise the mutex is as it was. */
  lemma ZeroMeansAccepted(s: State, kind: Kind, accepts: bool)
    ensures var (rc, s') := DoCall(s, kind, accepts);
            && (rc == 0 <==> s'.link.issued == s.link.issued + 1)
            && (rc != 0 ==> s'.link == s.link && s'.mutex == s.mutex && s'.errors == s.errors)
  {}

  /** A call is sent exactly when the mutex is free, the send accepted, and the heap bound, or not bound
      yet for an initialisation. What else can happen leaves the mutex and what is in flight alone. */
  lemma AcceptedIff(s: State, kind: Kind, accepts: bool)
    ensures var (rc, s') := DoCall(s, kind, accepts);
            var sent := !s.mutex && accepts && (kind.Init? <==> !s.bound);
            && (|s'.link.pending| == |s.link.pending| + (if sent then 1 else 0))
            && (sent ==> rc == 0 && s'.mutex && s'.link == s.link.Accept(kind, Sent(kind)))
            && (!sent ==> s'.mutex == s.mutex && s'.link.pending == s.link.pending)
            && (!sent && kind.Init? && s.bound ==> rc == 0 && s'.link == s.link.Answer(Init, 0))
            && (!sent && !(kind.Init? && s.bound) ==> s'.link == s.link && rc == if !kind.Init? && !s.bound then -1 else -2)
  {}

  /** The packet carries the size to allocate or the address to free, and the reply is the address. */
  lemma PacketCarries(size: int, addr: int, reply: int)
    ensures Sent(Alloc(size)) == [size] && Sent(Free(addr)) == [addr] && Sent(Init) == []
    ensures Outcome(Alloc(size), reply) == Outcome(Free(addr), reply) == reply
    ensures Outcome(Init, reply) == 0 <==> reply != 0
  {}

  lemma {:induction false} RunOn(s: State, first: seq<Event>, rest: seq<Event>)
    requires Inv(s)
    ensures Run(s, first + rest) == Run(Run(s, first), rest)
    decreases |first|
  {
    hide Step, Inv;
    if first == [] {
      assert first + rest == rest;
    } else {
      StepKeeps(s, first[0]);
      RunOn(Step(s, first[0]), first[1..], rest);
      assert (first + rest)[1..] == first[1..] + rest;
    }
  }

  lemma RunOne(s: State, e: Event)
    requires Inv(s)
    ensures Inv(Step(s, e)) && Run(s, [e]) == Step(s, e)
  {
    hide Step, Inv;
    StepKeeps(s, e);
    assert [e][1..] == [];
  }

  /** What is in flight can always be answered and called back; a server found binds the heap. */
  lemma Settle(s: State) returns (events: seq<Event>)
    requires Inv(s)
    ensures var t := Run(s, events);
            && !t.mutex && t.link.issued == s.link.issued
            && (s.mutex && s.link.pending[0].kind.Init? && s.link.pending[0].reply.None? ==> t.bound)
            && (s.bound ==> t.bound)
  {
    hide Inv;
    SettleSteps(s);
    if !s.mutex {
      return [];
    }
    if s.link.pending[0].reply.Some? {
      RunOne(s, Complete(0));
      return [Complete(0)];
    }
    RunOne(s, Reply(0, 1));
    SettleSteps(Step(s, Reply(0, 1)));
    RunOne(Step(s, Reply(0, 1)), Complete(0));
    RunOn(s, [Reply(0, 1)], [Complete(0)]);
    events := [Reply(0, 1)] + [Complete(0)];
  }

  lemma SettleSteps(s: State)
    requires Inv(s)
    ensures |s.link.pending| == if s.mutex then 1 else 0
    ensures s.mutex && s.link.pending[0].reply.None? ==>
              var t := Step(s, Reply(0, 1));
              && t.mutex && |t.link.pending| == 1 && t.link.issued == s.link.issued && t.bound == s.bound
              && t.link.pending[0].reply.Some? && t.link.pending[0].kind == s.link.pending[0].kind
              && (t.link.pending[0].kind.Init? ==> t.server == 1)
    ensures s.mutex && s.link.pending[0].reply.Some? ==>
              var t := Step(s, Complete(0));
              && !t.mutex && t.link.issued == s.link.issued && (s.bound ==> t.bound)
              && (s.link.pending[0].kind.Init? && s.server == 1 ==> t.bound)
  {}

  lemma QuietSends(s: State, kind: Kind)
    requires Inv(s) && !s.mutex && (kind.Init? <==> !s.bound)
    ensures var t := Step(s, Event.Request(kind, true));
            && t.mutex && |t.link.pending| == 1 && t.link.pending[0].kind == kind
            && t.link.pending[0].id == s.link.issued && t.link.pending[0].reply.None? && t.link.issued > s.link.issued
  {
    hide DoCall;
    AcceptedIff(s, kind, true);
  }

  /** From every reachable state some run has any given allocation or release in flight. */
  lemma EveryCallServed(s: State, before: seq<Event>, kind: Kind) returns (after: seq<Event>)
    requires PowerOn(s) && !kind.Init?
    ensures var t, u := Reached(s, before), Run(Reached(s, before), after);
            |u.link.pending| == 1 && u.link.pending[0].kind == kind && u.link.pending[0].id >= t.link.issued
  {
    hide Inv, Step;
    var t := Reached(s, before);
    var events := Settle(t);
    var quiet := Run(t, events);
    if !quiet.bound {
      var e := Event.Request(Init, true);
      QuietSends(quiet, Init);
      RunOne(quiet, e);
      RunOn(t, events, [e]);
      events := events + [e];
      var more := Settle(Step(quiet, e));
      RunOn(t, events, more);
      events := events + more;
    }
    var bound := Run(t, events);
    QuietSends(bound, kind);
    RunOne(bound, Event.Request(kind, true));
    RunOn(t, events, [Event.Request(kind, true)]);
    after := events + [Event.Request(kind, true)];
  }

  class Driver {
    var mutex: bool
    var errors: nat
    var bound: bool
    var server: int
    var packet: int
    var link: Link<Kind>

    ghost function Snapshot(): State
      reads this
    {
      State(mutex, errors, bound, server, packet, link)
    }

    constructor ()
      ensures PowerOn(Snapshot())
    {
      mutex, errors, bound, server, packet := false, 0, false, 0, 0;
      link := Link(0, [], []);
    }

    method Unlock()
      modifies `mutex, `errors
      ensures !mutex && errors == old(errors) + (if old(mutex) then 0 else 1)
    {
      if mutex {
        mutex := false;
      } else {
        errors := errors + 1;
      }
    }

    /** sbcall_iopheapinit, sbcall_iopaheapalloc and sbcall_iopheapfree. */
    method Call(kind: Kind, accepts: bool) returns (rc: int)
      modifies this
      ensures (rc, Snapshot()) == DoCall(old(Snapshot()), kind, accepts)
    {
      if kind.Init? {
        if bound {
          link := link.Answer(Init, 0);
          return 0;
        }
      } else if !bound {
        return -1;
      }
      if mutex {
        return -2;
      }
      mutex := true;
      match kind {
        case Init =>
        case Alloc(size) => packet := size;
        case Free(addr) => packet := addr;
      }
      if !accepts {
        Unlock();
        return -SIF_RPCE_SENDP;
      }
      link := link.Accept(kind, Sent(kind));
      return 0;
    }

    method Receive(i: nat, word: int)
      requires CanReply(link, i)
      modifies this
      ensures Snapshot() == Land(old(Snapshot()), i, word)
    {
      if link.pending[i].kind.Init? {
        server := word;
      } else {
        packet := word;
      }
      link := link.Land(i, [word]);
    }

    method Completed(i: nat)
      requires CanComplete(link, i)
      modifies this
      ensures Snapshot() == Callback(old(Snapshot()), i)
    {
      var result;
      if !link.pending[i].kind.Init? {
        result := packet;
      } else if server != 0 {
        result, bound := 0, true;
      } else {
        result := -1;
      }
      Unlock();
      link := link.Finish(i, result, []);
    }
  }
}
