/** When a CDVD call is accepted, what it sends, and that every call can be brought to be served. */
module CdvdCalls {
  import opened SifRpc
  import opened Cdvd

  // ------------------------------------------------------------------- acceptance

  /** The request a call makes. */
  function KindOf(s: State, call: Call): Kind {
    match call
    case CallInit => Init(s.counter)
    case CallReady(mode) => Ready(mode)
    case CallS(c) => SCmd(c)
    case CallN(c) => NCmd(c)
  }

  /** Initialising an initialised library, and the media mode where modules do not know it, are answered
      without a request. */
  predicate Immediate(s: State, call: Call, inInterrupt: bool) {
    (call.CallInit? && s.counter >= 6) || (call == CallS(MmodeEmulated) && !inInterrupt)
  }

  /** The mutex the call needs is free and the RPC client it looks at is idle. */
  predicate Lockable(s: State, call: Call, stat: bool) {
    !stat && if call.CallN? || (call.CallInit? && s.counter == 4) then !s.g.mutexN else !s.g.mutexS
  }

  predicate ServiceBound(s: State, call: Call) {
    match call
    case CallInit => true
    case CallReady(_) => s.bound.diskReady
    case CallS(_) => s.bound.sCmd
    case CallN(_) => s.bound.nCmd
  }

  /** What a refused call returns. */
  function Refusal(s: State, call: Call, stat: bool, inInterrupt: bool): int {
    match call
    case CallInit => -2
    case CallReady(_) => if !Lockable(s, call, stat) then 6 else if !s.bound.diskReady then -1 else -2
    case _ => if inInterrupt && !(Lockable(s, call, stat) && ServiceBound(s, call)) then -1 else -2
  }

  /** The request is the newest in flight, and its mutex is held. */
  predicate Sent(s: State, s': State, call: Call) {
    && |s'.link.pending| == |s.link.pending| + 1 && s'.link.pending[..|s.link.pending|] == s.link.pending
    && s'.link.pending[|s.link.pending|].kind == KindOf(s, call)
    && s'.link.pending[|s.link.pending|].id == s.link.issued
    && s'.link.pending[|s.link.pending|].reply.None?
    && s'.link.ended == s.link.ended && s'.link.issued == s.link.issued + 1 && s'.counter == s.counter
    && if call.CallN? || (call.CallInit? && s.counter == 4) then s'.g.mutexN && s'.g.mutexS == s.g.mutexS
       else s'.g.mutexS && s'.g.mutexN == s.g.mutexN
  }

  predicate Untouched(s: State, s': State) {
    s'.link == s.link && s'.g.mutexS == s.g.mutexS && s'.g.mutexN == s.g.mutexN && s'.counter == s.counter
  }

  /** What every call promises: answered on the spot, or sent exactly when the lock is free, the client
      idle, the service bound and the send accepted, or refused without a trace. */
  predicate Promise(s: State, call: Call, stat: bool, accepts: bool, inInterrupt: bool, rc: int, s': State) {
    if Immediate(s, call, inInterrupt) then
      rc == 0 && s' == s.(link := s.link.Answer(KindOf(s, call), if call.CallInit? then 0 else 1))
    else if Lockable(s, call, stat) && ServiceBound(s, call) && accepts then rc == 0 && Sent(s, s', call)
    else rc == Refusal(s, call, stat, inInterrupt) && Untouched(s, s')
  }

  lemma InitAccepted(s: State, stat: bool, accepts: bool, inInterrupt: bool)
    requires Shaped(s.buf)
    ensures var (rc, s') := DoInit(s, stat, accepts); Promise(s, CallInit, stat, accepts, inInterrupt, rc, s')
  {
    hide Put;
  }

  lemma ReadyAccepted(s: State, mode: int, stat: bool, accepts: bool, inInterrupt: bool)
    requires Shaped(s.buf)
    ensures var (rc, s') := DoReady(s, mode, stat, accepts);
            Promise(s, CallReady(mode), stat, accepts, inInterrupt, rc, s')
  {
    hide Put;
  }

  lemma SAccepted(s: State, c: SCall, stat: bool, accepts: bool, inInterrupt: bool)
    requires Shaped(s.buf)
    ensures var (rc, s') := DoS(s, c, stat, accepts, inInterrupt);
            Promise(s, CallS(c), stat, accepts, inInterrupt, rc, s')
  {
    hide Put, SPayload, SNumber;
  }

  lemma NAccepted(s: State, c: NCall, stat: bool, accepts: bool, inInterrupt: bool)
    requires Shaped(s.buf)
    ensures var (rc, s') := DoN(s, c, stat, accepts, inInterrupt);
            Promise(s, CallN(c), stat, accepts, inInterrupt, rc, s')
  {
    hide Put, NPayload, NNumber;
  }

  /** Every call, in every state. */
  lemma AcceptedIff(s: State, call: Call, stat: bool, accepts: bool, inInterrupt: bool)
    requires Shaped(s.buf)
    ensures var (rc, s') := DoCall(s, call, stat, accepts, inInterrupt);
            Promise(s, call, stat, accepts, inInterrupt, rc, s')
  {
    hide Promise, DoInit, DoReady, DoS, DoN;
    match call
    case CallInit => InitAccepted(s, stat, accepts, inInterrupt);
    case CallReady(mode) => ReadyAccepted(s, mode, stat, accepts, inInterrupt);
    case CallS(c) => SAccepted(s, c, stat, accepts, inInterrupt);
    case CallN(c) => NAccepted(s, c, stat, accepts, inInterrupt);
  }

  // ------------------------------------------------------------ what goes to the IOP

  /** An S command as the IOP takes it, by number and words; None for one it does not know here. */
  function DecodeS(number: int, words: seq<int>): Option<SCall> {
    match number
    case 0x01 => Some(ReadRtc)
    case 0x02 => if |words| == 2 then Some(WriteRtc(words[0], words[1])) else None
    case 0x03 => Some(GetType)
    case 0x04 => Some(GetError)
    case 0x05 => if |words| == 1 then Some(TrayRequest(words[0])) else None
    case 0x22 => if |words| == 1 then Some(Mmode(words[0])) else None
    case 0x0E =>
      if |words| == 1 then Some(OpenConfig(words[0] / 0x100 % 256, words[0] % 256, words[0] / 0x1_0000 % 256)) else None
    case 0x0F => Some(CloseConfig)
    case 0x10 => Some(ReadConfig)
    case _ => None
  }

  /** The call as far as it reaches the IOP. */
  function AsSent(c: SCall): SCall {
    match c
    case MmodeEmulated => GetError
    case OpenConfig(device, mode, blocks) => OpenConfig(device % 256, mode % 256, blocks % 256)
    case _ => c
  }

  /** Number and words give every S command back, an emulated one as the GETERROR that stands for it. */
  lemma SCommandReadBack(c: SCall)
    ensures DecodeS(SNumber(c), SPayload(c)) == Some(AsSent(c))
  {}

  function DecodeArgs(words: seq<int>): ReadArgs
    requires |words| >= 4
  {
    ReadArgs(words[0], words[1], words[2], words[3] % 256, words[3] / 0x100 % 256, words[3] / 0x1_0000)
  }

  /** The same for N commands: a read sends its arguments in order, with its mode packed by bytes, then
      the two addresses the IOP reports to. */
  lemma NCommandReadBack(a: ReadArgs, len: nat)
    requires 0 <= a.retries < 256 && 0 <= a.speed < 256 && 0 <= a.sectorType < 256
    ensures NNumber(Read(a)) == 0x01 && NNumber(ReadVideo(a)) == 0x03
    ensures NNumber(GetToc(len)) == 0x04 && NNumber(Stop) == 0x07
    ensures var (slot, words) := NPayload(Read(a));
            slot == ReadData && |words| == 6 && DecodeArgs(words) == a && words[4..] == [RD_INTR_ADDR, CUR_READ_POS_ADDR]
    ensures var (slot, words) := NPayload(ReadVideo(a));
            slot == ReadData && |words| == 5 && DecodeArgs(words) == a && words[4] == RD_INTR_ADDR
    ensures NPayload(GetToc(len)) == (TocSend, [TOC_ADDR])
    ensures NPayload(Stop).1 == []
  {}

  /** A table of contents is clipped to 2064 bytes on a DVD and to 1024 on a CD. */
  lemma TocClipped(len: nat, media: int)
    ensures var n, limit := TocLength(len, media), if media == 0 then 1024 else 2064;
            n <= len && n <= limit && (n == len || n == limit)
  {}

  /** What callers are told, field by field of their replies. */
  lemma OutcomeFields(clock: seq<int>, word: int, second: int, toc: seq<int>, len: nat)
    requires |clock| == 4 && |toc| == 2 + 3072
    ensures Outcome(SCmd(ReadRtc), clock) == (clock[0], [clock[1], clock[2]])
    ensures Outcome(SCmd(GetType), [word]) == Outcome(SCmd(GetError), [word]) == (word, [])
    ensures Outcome(Ready(second), [word]) == (word, [])
    ensures Outcome(SCmd(TrayRequest(0)), [word, second]).0 == 1 <==> word == 0
    ensures Outcome(SCmd(TrayRequest(0)), [word, second]).1 == [second]
    ensures Outcome(SCmd(CloseConfig), [word, second]) == (word, [second])
    ensures var (result, out) := Outcome(NCmd(GetToc(len)), toc);
            && (result == 1 <==> toc[0] == 0) && out[0] == toc[1] && 0 <= out[1] <= 2064
            && out[2..] == toc[2..2 + out[1]]
    ensures Outcome(Init(5), [word]).0 == 0 <==> word != 0
    ensures Outcome(Init(3), []).0 == -1 && forall stage :: stage in {0, 1, 2, 4} ==> Outcome(Init(stage), [word]).0 == -1
  {
    assert clock[1..3] == [clock[1], clock[2]];
  }

  // ----------------------------------------------------------------- getting served

  lemma {:induction false} RunOn(s: State, first: seq<Event>, rest: seq<Event>)
    requires Inv(s)
    ensures Run(s, first + rest) == Run(Run(s, first), rest)
    decreases |first|
  {
    hide Step, Inv;
    InvShaped(s);
    if first == [] {
      assert first + rest == rest;
    } else {
      StepKeeps(s, first[0]);
      RunOn(Step(s, first[0]), first[1..], rest);
      assert (first + rest)[1..] == first[1..] + rest;
    }
  }

  lemma InvShaped(s: State)
    requires Inv(s)
    ensures Shaped(s.buf)
  {}

  lemma RunOne(s: State, e: Event)
    requires Inv(s)
    ensures Shaped(s.buf) && Inv(Step(s, e)) && Run(s, [e]) == Step(s, e)
  {
    hide Step;
    StepKeeps(s, e);
    assert [e][1..] == [];
  }

  /** In a quiet state a call whose service is bound is alone in flight. */
  lemma QuietSends(s: State, call: Call)
    requires Inv(s) && s.link.pending == [] && ServiceBound(s, call) && (call.CallInit? ==> s.counter < 6)
    ensures var t := Step(s, Event.Request(call, false, true, true));
            && t.counter == s.counter && |t.link.pending| == 1
            && t.link.pending[0].kind == KindOf(s, call) && t.link.pending[0].id == s.link.issued
            && t.link.pending[0].reply.None?
  {
    hide DoCall, Inv;
    QuietUnlocked(s);
    AcceptedIff(s, call, false, true, true);
  }

  lemma QuietUnlocked(s: State)
    requires Inv(s) && s.link.pending == []
    ensures !s.g.mutexS && !s.g.mutexN && Shaped(s.buf)
  {
    NoneWaiting(s);
  }

  lemma StageReply(s: State)
    requires Inv(s) && s.counter < 6 && |s.link.pending| == 1
    requires s.link.pending[0].kind == Init(s.counter) && s.link.pending[0].reply.None?
    ensures var words := if s.counter == 3 then [] else [1];
            var t := Step(s, Reply(0, words));
            && t.counter == s.counter && |t.link.pending| == 1
            && t.link.pending[0].kind == Init(s.counter) && t.link.pending[0].reply == Some(words)
  {}

  lemma StageComplete(s: State)
    requires Inv(s) && s.counter < 6 && |s.link.pending| == 1
    requires s.link.pending[0].kind == Init(s.counter)
    requires s.link.pending[0].reply == Some(if s.counter == 3 then [] else [1])
    ensures var t := Step(s, Complete(0)); t.counter == s.counter + 1 && t.link.pending == []
  {
    CounterRisesByOne(s, Complete(0));
  }

  /** One stage of the bind, asked for, answered and called back. */
  lemma Climb(s: State) returns (events: seq<Event>)
    requires Inv(s) && s.link.pending == [] && s.counter < 6
    ensures var t := Run(s, events); t.counter == s.counter + 1 && t.link.pending == []
  {
    hide Step, Inv;
    var e0 := Event.Request(CallInit, false, true, true);
    RunOne(s, e0);
    QuietSends(s, CallInit);
    var s1 := Step(s, e0);
    var e1 := Reply(0, if s.counter == 3 then [] else [1]);
    RunOne(s1, e1);
    StageReply(s1);
    var s2 := Step(s1, e1);
    RunOne(s2, Complete(0));
    StageComplete(s2);
    RunOn(s, [e0], [e1]);
    RunOn(s, [e0] + [e1], [Complete(0)]);
    events := [e0] + [e1] + [Complete(0)];
  }

  lemma {:induction false} ClimbAll(s: State) returns (events: seq<Event>)
    requires Inv(s) && s.link.pending == [] && s.counter <= 6
    ensures var t := Run(s, events); t.counter == 6 && t.link.pending == []
    decreases 6 - s.counter
  {
    hide Inv;
    if s.counter == 6 {
      return [];
    }
    var stage := Climb(s);
    var rest := ClimbAll(Run(s, stage));
    RunOn(s, stage, rest);
    events := stage + rest;
  }

  lemma AllBound(s: State, call: Call)
    requires Inv(s)
    ensures s.counter <= 6 && (s.counter == 6 ==> ServiceBound(s, call))
  {}

  /** From every reachable state some run completes the bind and then has any given call in flight, sent
      after that state. */
  lemma EveryCallServed(s: State, before: seq<Event>, call: Call) returns (after: seq<Event>)
    requires PowerOn(s) && !call.CallInit?
    ensures var t, u := Reached(s, before), Run(Reached(s, before), after);
            && u.counter == 6 && |u.link.pending| == 1
            && u.link.pending[0].kind == KindOf(u, call) && u.link.pending[0].id >= t.link.issued
  {
    hide Inv, Step;
    var t := Reached(s, before);
    var drain := Drains(t);
    var quiet := Run(t, drain);
    AllBound(quiet, call);
    var climb := ClimbAll(quiet);
    var ready := Run(quiet, climb);
    AllBound(ready, call);
    var e := Event.Request(call, false, true, true);
    RunOne(ready, e);
    QuietSends(ready, call);
    IssuedGrows(quiet, climb);
    RunOn(t, drain, climb);
    RunOn(t, drain + climb, [e]);
    after := drain + climb + [e];
  }

  lemma IssuedStep(s: State, e: Event)
    requires Inv(s)
    ensures Step(s, e).link.issued >= s.link.issued
  {
    hide Put, NPayload, SPayload, NNumber, SNumber, Inv, CallbackBody;
    InvShaped(s);
  }

  lemma {:induction false} IssuedGrows(s: State, events: seq<Event>)
    requires Inv(s)
    ensures Run(s, events).link.issued >= s.link.issued
    decreases |events|
  {
    hide Step, Inv;
    InvShaped(s);
    if events != [] {
      StepKeeps(s, events[0]);
      IssuedStep(s, events[0]);
      IssuedGrows(Step(s, events[0]), events[1..]);
    }
  }
}
