/**
 * The memory-card part of the SBIOS: commands guarded by `lastCmd`, and an initialisation that takes no
 * guard. All of them share one RPC client, which takes one request at a time.
 */
module McCard {
  import opened SifRpc

  const MC := 0
  const XMC := 1
  const INITIALIZED := 2

  datatype Func =
    | GetInfo | Open | Close | Seek | Read | Write | Flush | MkDir | GetDir | SetInfo | Delete
    | Format | Unformat | GetEnt | Rename

  /** MC_FUNC_*; zero is "no transaction". */
  function Code(f: Func): (c: int)
    ensures c > 0
  {
    match f
    case GetInfo => 0x01
    case Open => 0x02
    case Close => 0x03
    case Seek => 0x04
    case Read => 0x05
    case Write => 0x06
    case Flush => 0x0A
    case MkDir => 0x0B
    case GetDir => 0x0D
    case SetInfo => 0x0E
    case Delete => 0x0F
    case Format => 0x10
    case Unformat => 0x11
    case GetEnt => 0x12
    case Rename => 0x13
  }

  /** Which of the three addresses of a get-info call are not NULL. */
  datatype Wanted = Wanted(cardType: bool, free: bool, format: bool)

  /** A command: its function, the words its command buffer holds when sent, and what get-info wants. */
  datatype Kind = Bind | InitCall | Answered | Cmd(f: Func, words: seq<int>, wanted: Wanted)

  datatype CmdBuffer = McCmd | McFileCmd | McInfoCmd

  function BufferOf(f: Func): CmdBuffer {
    match f
    case GetInfo => McInfoCmd
    case Close => McFileCmd
    case Seek => McFileCmd
    case Read => McFileCmd
    case Write => McFileCmd
    case Flush => McFileCmd
    case _ => McCmd
  }

  /** mcInitializeCounter, lastCmd and mcType. */
  datatype Control = Control(counter: nat, lastCmd: int, mcType: int)

  /** cdata.server, the three saved addresses, the command buffers and the areas replies land in. */
  datatype Areas = Areas(
    server: int, wanted: Wanted, cmds: map<CmdBuffer, seq<int>>, rdata: seq<int>, endParameter: seq<int>)

  /** `inUse` is cdata's packet pointer not being NULL. */
  datatype State = State(c: Control, a: Areas, inUse: bool, link: Link<Kind>)

  predicate Shaped(a: Areas) {
    && McCmd in a.cmds && McFileCmd in a.cmds && McInfoCmd in a.cmds
    && |a.rdata| == 512 && |a.endParameter| == 48
  }

  // --------------------------------------------------------------------------- calls

  /** A bind that takes the client forgets the server of an earlier one. */
  function Cleared(s: State, kind: Kind, wire: Wire): State {
    if kind.Bind? && Takes(s.inUse, wire) then s.(a := s.a.(server := 0)) else s
  }

  /** SifBindRpc and SifCallRpc on `cdata`: the packet is taken before the client is looked at, and a
      send that fails leaves the client in use. */
  function Send(s: State, kind: Kind, sent: seq<int>, wire: Wire): (bool, State) {
    if !Takes(s.inUse, wire) then (false, s)
    else if !wire.sent then (false, s.(inUse := true))
    else (true, s.(inUse := true, link := s.link.Accept(kind, sent)))
  }

  /** sbcall_mcinit; `version` is the version of the loaded mcserv module, if there is one. */
  function DoInit(s: State, version: Option<nat>, wire: Wire): (int, State) {
    if s.c.mcType < 0 && version.None? then (-1, s)
    else
      var detected := if s.c.mcType >= 0 then s.c.mcType else if version.value / 256 > 1 then XMC else MC;
      var s1 := s.(c := s.c.(mcType := detected));
      if s.c.counter >= 2 then (0, s1.(link := s.link.Answer(Answered, 1)))
      else if s.c.counter == 1 && detected != XMC then (0, s1)
      else
        var kind := if s.c.counter == 0 then Bind else InitCall;
        var (accepted, s2) := Send(Cleared(s1, kind, wire), kind, [], wire);
        (if accepted then 0 else -SIF_RPCE_SENDP, s2)
  }

  /** Any sbcall_mc* command. */
  function DoCmd(s: State, f: Func, words: seq<int>, wanted: Wanted, wire: Wire): (int, State) {
    if s.c.counter != INITIALIZED then (-1, s)
    else if s.c.lastCmd != 0 then (-SIF_RPCE_SENDP, s)
    else
      var filled := s.a.(cmds := s.a.cmds[BufferOf(f) := words],
                         wanted := if f.GetInfo? then wanted else s.a.wanted);
      var (accepted, s1) := Send(s.(c := s.c.(lastCmd := Code(f)), a := filled), Cmd(f, words, wanted), words, wire);
      if accepted then (0, s1) else (-SIF_RPCE_SENDP, s1.(c := s1.c.(lastCmd := 0)))
  }

  // ------------------------------------------------------------ replies and callbacks

  /** Words that land in `rdata`; get-info and read replies also fill `endParameter`. */
  function RdataWords(kind: Kind): (n: nat)
    ensures n <= 3
  {
    match kind
    case Bind => 0
    case InitCall => 3
    case Answered => 0
    case Cmd(_, _, _) => 1
  }

  predicate FillsEndParameter(kind: Kind) {
    kind.Cmd? && (kind.f.GetInfo? || kind.f.Read?)
  }

  function ReplySize(kind: Kind): nat {
    if kind.Bind? then 1 else RdataWords(kind) + (if FillsEndParameter(kind) then 48 else 0)
  }

  function LandIn(a: Areas, kind: Kind, words: seq<int>): Areas
    requires Shaped(a) && |words| == ReplySize(kind)
  {
    if kind.Bind? then a.(server := words[0])
    else
      var n := RdataWords(kind);
      a.(rdata := Overwrite(a.rdata, words[..n]),
         endParameter := if FillsEndParameter(kind) then words[n..] else a.endParameter)
  }

  /** What get-info writes through the addresses: card type, free clusters, whether it is formatted. */
  function Info(mcType: int, wanted: Wanted, endp: seq<int>): seq<int>
    requires |endp| == 48
  {
    (if wanted.cardType then [endp[0]] else [])
    + (if wanted.free then [endp[1]] else [])
    + (if !wanted.format then []
       else if mcType == MC then [if endp[0] == 0 then 0 else 1]
       else if mcType == XMC then [endp[36]] else [])
  }

  /** What a caller is entitled to be told, from its own request and reply alone. */
  function Outcome(mcType: int, kind: Kind, reply: seq<int>): (int, seq<int>)
    requires |reply| == ReplySize(kind)
  {
    match kind
    case Bind => (if reply[0] == 0 then -1 else if mcType == MC then 1 else 0, [])
    case InitCall => (if reply[1] < 0x200 then -120 else if reply[2] < 0x200 then -121 else reply[0], [])
    case Answered => (1, [])
    case Cmd(f, _, wanted) =>
      (reply[0], if f.GetInfo? then Info(mcType, wanted, reply[1..]) else if f.Read? then reply[1..] else [])
  }

  /** mcGetInfoApdx, mcReadFixAlign or mcCallback: they read the shared areas. */
  function CmdResult(mcType: int, a: Areas, f: Func): (int, seq<int>)
    requires Shaped(a)
  {
    (a.rdata[0],
     if f.GetInfo? then Info(mcType, a.wanted, a.endParameter)
     else if f.Read? then a.endParameter else [])
  }

  /** The second half of mcInitCallback. */
  function InitDone(c: Control, a: Areas): (Control, int)
    requires Shaped(a)
  {
    if c.mcType == XMC && a.rdata[1] < 0x200 then (c, -120)
    else if c.mcType == XMC && a.rdata[2] < 0x200 then (c, -121)
    else (c.(lastCmd := 0, counter := c.counter + 1), if c.mcType == XMC then a.rdata[0] else 1)
  }

  /** mcInitCallback looks at the counter, not at the request it answers; with the library initialised
      it leaves the result as it was, which is written 0 here and which no run reaches. */
  function InitCallback(c: Control, a: Areas): (Control, int)
    requires Shaped(a)
  {
    if c.counter == 0 then
      if a.server == 0 then (c, -1)
      else if c.mcType == MC then InitDone(c.(counter := 1), a)
      else (c.(counter := 1), 0)
    else if c.counter == 1 then InitDone(c, a)
    else (c, 0)
  }

  function CallbackBody(s: State, kind: Kind): (Control, int, seq<int>)
    requires Shaped(s.a)
  {
    if kind.Cmd? then (s.c.(lastCmd := 0), CmdResult(s.c.mcType, s.a, kind.f).0, CmdResult(s.c.mcType, s.a, kind.f).1)
    else (InitCallback(s.c, s.a).0, InitCallback(s.c, s.a).1, [])
  }

  // ----------------------------------------------------------------------------- runs

  datatype Event =
    | RequestInit(version: Option<nat>, wire: Wire)
    | Request(f: Func, words: seq<int>, wanted: Wanted, wire: Wire)
    | Reply(i: nat, words: seq<int>)
    | Complete(i: nat)

  predicate CanReply(link: Link<Kind>, i: nat, words: seq<int>) {
    i < |link.pending| && link.pending[i].reply.None? && |words| == ReplySize(link.pending[i].kind)
  }

  predicate CanComplete(link: Link<Kind>, i: nat) {
    i < |link.pending| && link.pending[i].reply.Some?
  }

  function Land(s: State, i: nat, words: seq<int>): State
    requires Shaped(s.a) && CanReply(s.link, i, words)
  {
    s.(a := LandIn(s.a, s.link.pending[i].kind, words), link := s.link.Land(i, words))
  }

  /** The client is free again before the end function runs. */
  function Callback(s: State, i: nat): State
    requires Shaped(s.a) && CanComplete(s.link, i)
  {
    var (c, result, out) := CallbackBody(s, s.link.pending[i].kind);
    State(c, s.a, false, s.link.Finish(i, result, out))
  }

  function Step(s: State, e: Event): State
    requires Shaped(s.a)
  {
    match e
    case RequestInit(version, wire) => DoInit(s, version, wire).1
    case Request(f, words, wanted, wire) => DoCmd(s, f, words, wanted, wire).1
    case Reply(i, words) => if CanReply(s.link, i, words) then Land(s, i, words) else s
    case Complete(i) => if CanComplete(s.link, i) then Callback(s, i) else s
  }

  // ---------------------------------------------------------------------- invariant

  predicate Holds(a: Areas, kind: Kind, reply: seq<int>)
    requires Shaped(a)
  {
    && |reply| == ReplySize(kind)
    && if kind.Bind? then a.server == reply[0]
       else
         var n := RdataWords(kind);
         a.rdata[..n] == reply[..n] && (FillsEndParameter(kind) ==> a.endParameter == reply[n..])
  }

  /** The request in flight fits the counter and the guard; its command and its reply are undisturbed. */
  predicate InFlight(c: Control, a: Areas, r: SifRpc.Request<Kind>)
    requires Shaped(a)
  {
    && (match r.kind
        case Bind => c.counter == 0 && c.lastCmd == 0
        case InitCall => c.counter == 1 && c.lastCmd == 0
        case Answered => false
        case Cmd(f, words, wanted) =>
          && c.counter == INITIALIZED && c.lastCmd == Code(f)
          && a.cmds[BufferOf(f)] == r.sent == words && (f.GetInfo? ==> a.wanted == wanted))
    && (r.reply.Some? ==> Holds(a, r.kind, r.reply.value))
  }

  /** An end call reports the outcome of its own reply. */
  predicate Honest(mcType: int, e: EndCall<Kind>) {
    |e.reply| == ReplySize(e.kind) && (e.result, e.out) == Outcome(mcType, e.kind, e.reply)
  }

  /** A bind that found the server, and what completes the initialisation. */
  predicate Bound(e: EndCall<Kind>) {
    e.kind.Bind? && |e.reply| == 1 && e.reply[0] != 0
  }

  predicate Initialises(mcType: int, e: EndCall<Kind>) {
    if mcType == MC then Bound(e)
    else e.kind.InitCall? && |e.reply| == 3 && e.reply[1] >= 0x200 && e.reply[2] >= 0x200
  }

  ghost predicate CounterCounts(counter: nat, mcType: int, ended: seq<EndCall<Kind>>) {
    && (counter >= 1 <==> exists k :: 0 <= k < |ended| && Bound(ended[k]))
    && (counter == INITIALIZED <==> exists k :: 0 <= k < |ended| && Initialises(mcType, ended[k]))
  }

  predicate ControlGood(c: Control) {
    && c.counter <= INITIALIZED
    && c.mcType in {-1, MC, XMC}
    && (c.counter == 1 ==> c.mcType == XMC)
  }

  ghost predicate Inv(s: State) {
    && Shaped(s.a) && ControlGood(s.c) && s.link.Conserved()
    && |s.link.pending| <= 1
    && (if s.link.pending == [] then s.c.lastCmd == 0 else s.inUse && InFlight(s.c, s.a, s.link.pending[0]))
    && (s.c.mcType < 0 ==> s.link.pending == [] && s.link.ended == [])
    && (forall k :: 0 <= k < |s.link.ended| ==> Honest(s.c.mcType, s.link.ended[k]))
    && CounterCounts(s.c.counter, s.c.mcType, s.link.ended)
  }

  ghost predicate PowerOn(s: State) {
    Shaped(s.a) && s.c == Control(0, 0, -1) && !s.inUse && s.link == Link(0, [], [])
  }

  lemma DetectKeeps(s: State, detected: int)
    requires Inv(s) && detected in {MC, XMC} && (s.c.mcType >= 0 ==> detected == s.c.mcType)
    ensures Inv(s.(c := s.c.(mcType := detected)))
  {}

  lemma BindClears(s: State)
    requires Inv(s) && !s.inUse
    ensures Inv(s.(a := s.a.(server := 0)))
  {}

  lemma InitSendKeeps(s: State, kind: Kind, wire: Wire)
    requires Inv(s) && s.c.mcType >= 0
    requires (kind == Bind && s.c.counter == 0) || (kind == InitCall && s.c.counter == 1)
    ensures Inv(Send(s, kind, [], wire).1)
  {
    AcceptConserves(s.link, kind, []);
  }

  lemma AnswerKeeps(s: State)
    requires Inv(s) && s.c.counter == INITIALIZED
    ensures Inv(s.(link := s.link.Answer(Answered, 1)))
  {
    AnswerConserves(s.link, Answered, 1);
    EndKeepsCounter(s.c.counter, s.c.mcType, s.link.ended, s.link.Answer(Answered, 1).ended);
  }

  lemma DoInitKeeps(s: State, version: Option<nat>, wire: Wire)
    requires Inv(s)
    ensures Inv(DoInit(s, version, wire).1)
  {
    hide InFlight, Honest, CounterCounts, Send;
    if s.c.mcType >= 0 || version.Some? {
      var detected := if s.c.mcType >= 0 then s.c.mcType else if version.value / 256 > 1 then XMC else MC;
      DetectKeeps(s, detected);
      var s1 := s.(c := s.c.(mcType := detected));
      if s.c.counter >= INITIALIZED {
        AnswerKeeps(s1);
      } else if s.c.counter == 0 && Takes(s.inUse, wire) {
        BindClears(s1);
        InitSendKeeps(s1.(a := s.a.(server := 0)), Bind, wire);
      } else {
        InitSendKeeps(s1, if s.c.counter == 0 then Bind else InitCall, wire);
      }
    }
  }

  lemma DoCmdKeeps(s: State, f: Func, words: seq<int>, wanted: Wanted, wire: Wire)
    requires Inv(s)
    ensures Inv(DoCmd(s, f, words, wanted, wire).1)
  {
    hide Honest;
    AcceptConserves(s.link, Cmd(f, words, wanted), words);
  }

  lemma LandKeeps(s: State, i: nat, words: seq<int>)
    requires Inv(s) && CanReply(s.link, i, words)
    ensures Inv(Land(s, i, words))
  {
    LandConserves(s.link, i, words);
  }

  /** One more end call that neither binds nor initialises leaves the counter right. */
  lemma EndKeepsCounter(counter: nat, mcType: int, ended: seq<EndCall<Kind>>, more: seq<EndCall<Kind>>)
    requires CounterCounts(counter, mcType, ended) && |more| == |ended| + 1 && more[..|ended|] == ended
    requires !Bound(more[|ended|]) && !Initialises(mcType, more[|ended|])
    ensures CounterCounts(counter, mcType, more)
  {
    assert forall k :: 0 <= k < |ended| ==> more[k] == ended[k];
  }

  lemma CallbackCounter(s: State, i: nat)
    requires Inv(s) && CanComplete(s.link, i)
    ensures CounterCounts(Callback(s, i).c.counter, Callback(s, i).c.mcType, Callback(s, i).link.ended)
  {
    var e := Callback(s, i).link.ended;
    var n := |s.link.ended|;
    assert e[..n] == s.link.ended;
    assert forall k :: 0 <= k < n ==> e[k] == s.link.ended[k];
    assert s.a.rdata[1] == s.a.rdata[..3][1] && s.a.rdata[2] == s.a.rdata[..3][2];
    if !Bound(e[n]) && !Initialises(s.c.mcType, e[n]) {
      EndKeepsCounter(s.c.counter, s.c.mcType, s.link.ended, e);
    }
  }

  lemma CallbackHonest(s: State, i: nat)
    requires Inv(s) && CanComplete(s.link, i)
    ensures var s' := Callback(s, i);
            && Honest(s'.c.mcType, s'.link.ended[|s.link.ended|])
            && ControlGood(s'.c) && s'.c.lastCmd == 0 && s'.c.mcType == s.c.mcType
  {
    var r := s.link.pending[i];
    assert s.a.rdata[0] == s.a.rdata[..1][0] == s.a.rdata[..3][0];
    assert s.a.rdata[1] == s.a.rdata[..3][1] && s.a.rdata[2] == s.a.rdata[..3][2];
    assert InFlight(s.c, s.a, r);
  }

  lemma CallbackKeeps(s: State, i: nat)
    requires Inv(s) && CanComplete(s.link, i)
    ensures Inv(Callback(s, i))
  {
    hide CallbackBody, Honest, InFlight, CounterCounts;
    var (c, result, out) := CallbackBody(s, s.link.pending[i].kind);
    FinishConserves(s.link, i, result, out);
    CallbackCounter(s, i);
    CallbackHonest(s, i);
  }

  lemma InvShaped(s: State)
    requires Inv(s)
    ensures Shaped(s.a)
  {}

  lemma StepKeeps(s: State, e: Event)
    requires Inv(s)
    ensures Inv(Step(s, e))
  {
    match e
    case RequestInit(version, wire) => DoInitKeeps(s, version, wire);
    case Request(f, words, wanted, wire) => DoCmdKeeps(s, f, words, wanted, wire);
    case Reply(i, words) => if CanReply(s.link, i, words) { LandKeeps(s, i, words); }
    case Complete(i) => if CanComplete(s.link, i) { CallbackKeeps(s, i); }
  }

  ghost function Run(s: State, events: seq<Event>): (t: State)
    requires Inv(s)
    ensures Inv(t)
    decreases |events|
  {
    if events == [] then s
    else
      StepKeeps(s, events[0]);
      Run(Step(s, events[0]), events[1..])
  }

  /** The state after a run of events from power-on. */
  ghost function Reached(s: State, events: seq<Event>): (t: State)
    requires PowerOn(s)
    ensures Inv(t)
  {
    assert Range(0) == [];
    Run(s, events)
  }

  // ------------------------------------------------------------------ main results

  /** Over every run at most one request is in flight, initialisations included; `lastCmd` is nonzero
      exactly while it is a command, and is then that command's own code. */
  lemma GuardIsTheTransaction(s: State, events: seq<Event>)
    requires PowerOn(s)
    ensures var t := Reached(s, events);
            && |t.link.pending| <= 1
            && (t.c.lastCmd != 0 <==> t.link.pending != [] && t.link.pending[0].kind.Cmd?)
            && (t.c.lastCmd != 0 ==> t.c.lastCmd == Code(t.link.pending[0].kind.f))
  {}

  /** Over every run each accepted call is in flight or has ended, exactly once. */
  lemma EveryCallEndsOnce(s: State, events: seq<Event>, id: nat)
    requires PowerOn(s)
    ensures var link := Reached(s, events).link;
            multiset(Ids(link.pending))[id] + multiset(EndIds(link.ended))[id] == if id < link.issued then 1 else 0
  {
    ExactlyOnce(Reached(s, events).link, id);
  }

  /** Over every run each end call, of a command or of an initialisation, reports the outcome of its own
      request and reply. */
  lemma EveryCallOwnReply(s: State, events: seq<Event>)
    requires PowerOn(s)
    ensures var t := Reached(s, events);
            forall k :: 0 <= k < |t.link.ended| ==> Honest(t.c.mcType, t.link.ended[k])
  {}

  /** Over every run the counter says which replies have come: it leaves 0 with the bind that found the
      server and reaches 2 with the reply that completes the initialisation. A callback never finds the
      library already initialised by another. */
  lemma InitialisedByReply(s: State, events: seq<Event>)
    requires PowerOn(s)
    ensures var t := Reached(s, events);
            && CounterCounts(t.c.counter, t.c.mcType, t.link.ended)
            && (t.link.pending != [] && !t.link.pending[0].kind.Cmd? ==>
                  t.c.counter == if t.link.pending[0].kind.Bind? then 0 else 1)
  {}

  /** A call returns 0 exactly when its end function has been or will be called; a refused command has
      released the guard. In particular no reachable initialisation takes the branch that sends nothing. */
  lemma ZeroMeansAccepted(s: State, e: Event)
    requires Inv(s) && (e.RequestInit? || e.Request?)
    ensures var (rc, s') :=
              if e.RequestInit? then DoInit(s, e.version, e.wire)
              else DoCmd(s, e.f, e.words, e.wanted, e.wire);
            && s' == Step(s, e)
            && (rc == 0 <==> s'.link.issued == s.link.issued + 1)
            && (rc != 0 ==> s'.link == s.link && s'.c.lastCmd == s.c.lastCmd)
  {}

  /** The RPC layer takes a request exactly when it has a packet, the client is free and the send works. */
  predicate Takeable(s: State, wire: Wire) {
    wire.packet && !s.inUse && wire.sent
  }

  /** A command is sent exactly when the library is initialised, no command is in flight and the RPC layer
      takes it; a refused one returns -1 before initialisation and -2 after. */
  lemma CommandAcceptedIff(s: State, f: Func, words: seq<int>, wanted: Wanted, wire: Wire)
    requires Inv(s)
    ensures var (rc, s') := DoCmd(s, f, words, wanted, wire);
            if s.c.counter == 2 && s.c.lastCmd == 0 && Takeable(s, wire) then
              && rc == 0 && s'.link.pending == [Request.Request(s.link.issued, Cmd(f, words, wanted), words, None)]
              && s'.c.lastCmd != 0 && s'.inUse
            else
              s'.link == s.link && s'.c == s.c && rc == if s.c.counter == 2 then -2 else -1
  {}

  /** An initialisation is sent exactly when the module is known, the library is not initialised and the
      RPC layer takes it: a bind at counter 0, the init call at counter 1. */
  lemma InitAcceptedIff(s: State, version: Option<nat>, wire: Wire)
    requires Inv(s)
    ensures var (rc, s') := DoInit(s, version, wire);
            && s'.c.counter == s.c.counter && s'.c.lastCmd == s.c.lastCmd
            && if s.c.mcType < 0 && version.None? then rc == -1 && s' == s
               else if s.c.counter == 2 then rc == 0 && s'.link == s.link.Answer(Answered, 1)
               else if Takeable(s, wire) then
                 && rc == 0 && s'.inUse
                 && s'.link.pending == [Request.Request(s.link.issued, if s.c.counter == 0 then Bind else InitCall, [], None)]
               else rc == -2 && s'.link == s.link
  {
    hide Honest, CounterCounts;
  }

  /** The first module seen decides the type, once: XMC from version 2.0 on. */
  lemma VersionDecides(s: State, v: nat, wire: Wire)
    requires Inv(s)
    ensures var t := DoInit(s, Some(v), wire).1.c.mcType;
            if s.c.mcType >= 0 then t == s.c.mcType else t == if v >= 0x200 then 1 else 0
  {
    hide Honest, CounterCounts, InFlight;
  }

  /** What get-info writes through each address: the type from the first word, the free clusters from the
      second, and whether the card is formatted from the first (old modules) or the 37th (new ones). */
  lemma InfoFields(mcType: int, wanted: Wanted, endp: seq<int>)
    requires |endp| == 48 && mcType in {0, 1}
    ensures var out := Info(mcType, wanted, endp);
            && |out| == (if wanted.cardType then 1 else 0) + (if wanted.free then 1 else 0) + (if wanted.format then 1 else 0)
            && (wanted.cardType ==> out[0] == endp[0])
            && (wanted.free ==> out[if wanted.cardType then 1 else 0] == endp[1])
            && (wanted.format ==>
                  out[|out| - 1] == if mcType == 1 then endp[36] else if endp[0] == 0 then 0 else 1)
  {}

  /** What callers are told, from the words of their replies. */
  lemma OutcomeFields(mcType: int, reply: seq<int>, f: Func, words: seq<int>, wanted: Wanted)
    requires mcType in {0, 1}
    ensures |reply| == 1 ==>
              Outcome(mcType, Bind, reply).0 == if reply[0] == 0 then -1 else if mcType == 0 then 1 else 0
    ensures |reply| == 3 && reply[1] < 0x200 ==> Outcome(mcType, InitCall, reply).0 == -120
    ensures |reply| == 3 && reply[1] >= 0x200 > reply[2] ==> Outcome(mcType, InitCall, reply).0 == -121
    ensures |reply| == 3 && reply[1] >= 0x200 && reply[2] >= 0x200 ==> Outcome(mcType, InitCall, reply).0 == reply[0]
    ensures |reply| == ReplySize(Cmd(f, words, wanted)) ==> Outcome(mcType, Cmd(f, words, wanted), reply).0 == reply[0]
    ensures ReplySize(Cmd(f, words, wanted)) == if f == GetInfo || f == Read then 49 else 1
  {}

  // ---------------------------------------------------------------- after a failed send

  /** The call gets as far as SifSendCmd, which fails. */
  predicate SendFails(s: State, e: Event) {
    match e
    case RequestInit(version, wire) =>
      (s.c.mcType >= 0 || version.Some?) && s.c.counter < INITIALIZED && Takes(s.inUse, wire) && !wire.sent
    case Request(_, _, _, wire) =>
      s.c.counter == INITIALIZED && s.c.lastCmd == 0 && Takes(s.inUse, wire) && !wire.sent
    case _ => false
  }

  ghost predicate SomeSendFails(s: State, events: seq<Event>)
    requires Inv(s)
    decreases |events|
  {
    events != [] && (StepKeeps(s, events[0]); SendFails(s, events[0]) || SomeSendFails(Step(s, events[0]), events[1..]))
  }

  /** The client is in use with no reply to come. */
  predicate Stuck(s: State) {
    s.inUse && s.link.pending == []
  }

  lemma StuckStep(s: State, e: Event)
    requires Inv(s)
    ensures Stuck(Step(s, e)) <==> Stuck(s) || SendFails(s, e)
    ensures Stuck(s) ==> Step(s, e).link.pending == []
  {}

  lemma {:induction false} StuckRun(s: State, events: seq<Event>)
    requires Inv(s)
    ensures Stuck(Run(s, events)) <==> Stuck(s) || SomeSendFails(s, events)
    decreases |events|
  {
    hide Step, Stuck, SendFails, Inv;
    InvShaped(s);
    if events != [] {
      StepKeeps(s, events[0]);
      StuckStep(s, events[0]);
      StuckRun(Step(s, events[0]), events[1..]);
    }
  }

  /** Some later run has a request of its own in flight. */
  ghost predicate Serves(s: State)
    requires Inv(s)
  {
    exists events :: Issues(s.link, Run(s, events).link)
  }

  predicate Issues(before: Link<Kind>, after: Link<Kind>) {
    exists i :: 0 <= i < |after.pending| && after.pending[i].id >= before.issued
  }

  const SENT := Wire(true, true)

  /** The call that suits the counter. */
  function NextCall(s: State): Event {
    if s.c.counter == INITIALIZED then Event.Request(Flush, [], Wanted(false, false, false), SENT)
    else RequestInit(Some(0x200), SENT)
  }

  lemma IdleServes(s: State)
    requires Inv(s) && s.link.pending == [] && !s.inUse
    ensures var t := Step(s, NextCall(s));
            |t.link.pending| == 1 && t.link.pending[0].id == s.link.issued
  {}

  lemma RunStep(s: State, e: Event, events: seq<Event>)
    requires Inv(s)
    ensures Inv(Step(s, e)) && Run(s, [e] + events) == Run(Step(s, e), events)
  {
    StepKeeps(s, e);
    assert ([e] + events)[1..] == events;
  }

  function ReplyFor(kind: Kind): (words: seq<int>)
    ensures |words| == ReplySize(kind)
  {
    seq(ReplySize(kind), i => 0)
  }

  /** The request in flight is answered, and its callback frees the client. */
  lemma ReplyStep(s: State, r: Event)
    requires Inv(s) && |s.link.pending| == 1 && s.link.pending[0].reply.None?
    requires r == Reply(0, ReplyFor(s.link.pending[0].kind))
    ensures var t := Step(s, r);
            |t.link.pending| == 1 && t.link.pending[0].reply.Some? && t.link.issued == s.link.issued
  {}

  lemma CompleteStep(s: State)
    requires Inv(s) && |s.link.pending| == 1 && s.link.pending[0].reply.Some?
    ensures var t := Step(s, Complete(0));
            t.link.pending == [] && !t.inUse && t.link.issued == s.link.issued
  {}

  lemma Drain(s: State) returns (events: seq<Event>)
    requires Inv(s) && !Stuck(s)
    ensures var t := Run(s, events); t.link.pending == [] && !t.inUse && t.link.issued == s.link.issued
  {
    hide Step, InFlight, Honest, CounterCounts, ControlGood;
    if s.link.pending == [] {
      return [];
    }
    var s1 := s;
    events := [];
    if s.link.pending[0].reply.None? {
      var r := Reply(0, ReplyFor(s.link.pending[0].kind));
      RunStep(s, r, [Complete(0)]);
      ReplyStep(s, r);
      s1 := Step(s, r);
      events := [r];
    }
    CompleteStep(s1);
    RunStep(s1, Complete(0), []);
    assert [Complete(0)] + [] == [Complete(0)];
    events := events + [Complete(0)];
  }

  lemma {:induction false} RunOn(s: State, first: seq<Event>, rest: seq<Event>)
    requires Inv(s)
    ensures Run(s, first + rest) == Run(Run(s, first), rest)
    decreases |first|
  {
    hide Step, Inv;
    InvShaped(s);
    if first == [] {
      assert first + rest == rest;
    } else {
      StepKeeps(s, first[0]);
      RunOn(Step(s, first[0]), first[1..], rest);
      assert (first + rest)[1..] == first[1..] + rest;
    }
  }

  lemma {:induction false} StuckIssues(s: State, events: seq<Event>)
    requires Inv(s) && Stuck(s)
    ensures !Issues(s.link, Run(s, events).link)
  {
    StuckRun(s, events);
  }

  lemma FreeIssues(s: State) returns (events: seq<Event>)
    requires Inv(s) && !Stuck(s)
    ensures Issues(s.link, Run(s, events).link)
  {
    var drain := Drain(s);
    var t := Run(s, drain);
    IdleServes(t);
    RunStep(t, NextCall(t), []);
    RunOn(s, drain, [NextCall(t)] + []);
    events := drain + ([NextCall(t)] + []);
    assert Run(s, events).link.pending[0].id >= s.link.issued;
  }

  /** A refused send releases the guard, but not always the client: over every run from power-on, a
      later request can still be sent exactly when no send has failed so far. */
  lemma ServesIffNoSendFailed(s: State, events: seq<Event>)
    requires PowerOn(s)
    ensures Serves(Reached(s, events)) <==> !SomeSendFails(s, events)
  {
    var t := Reached(s, events);
    StuckRun(s, events);
    if Stuck(t) {
      forall more ensures !Issues(t.link, Run(t, more).link) {
        StuckIssues(t, more);
      }
    } else {
      var more := FreeIssues(t);
    }
  }

  /** The shortest such run: one bind whose packet cannot be sent. */
  lemma OneFailedSend(s: State)
    requires PowerOn(s)
    ensures !Serves(Reached(s, [RequestInit(Some(0x200), Wire(true, false))]))
  {
    var e := RequestInit(Some(0x200), Wire(true, false));
    assert Range(0) == [];
    assert SendFails(s, e) && SomeSendFails(s, [e]);
    ServesIffNoSendFailed(s, [e]);
  }
}
