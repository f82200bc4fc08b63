/** The CDVD part of the SBIOS: two locks, shared static buffers and a six-stage bind sequence. */
module Cdvd {
  import opened SifRpc

  const READY_NOTREADY := 6
  const INIT_NOCHECK := 1

  /** Addresses handed to the IOP inside commands. */
  const RD_INTR_ADDR: int := 0x8000_4000
  const CUR_READ_POS_ADDR: int := 0x8000_4100
  const TOC_ADDR: int := 0x8000_4200

  datatype SCall =
    | ReadRtc | WriteRtc(lo: int, hi: int) | GetType | GetError | TrayRequest(request: int)
    | Mmode(media: int)   // modules that know the command
    | MmodeEmulated       // modules that do not: GETERROR is sent in its place
    | OpenConfig(device: int, mode: int, blocks: int) | CloseConfig | ReadConfig

  datatype ReadArgs = ReadArgs(lbn: int, sectors: int, dest: int, retries: int, speed: int, sectorType: int)

  datatype NCall = Read(args: ReadArgs) | ReadVideo(args: ReadArgs) | GetToc(len: nat) | Stop

  /** A request as the IOP sees it. */
  datatype Kind = Init(stage: nat) | Ready(mode: int) | SCmd(s: SCall) | NCmd(n: NCall)

  /** A call as Linux makes it. */
  datatype Call = CallInit | CallReady(mode: int) | CallS(s: SCall) | CallN(n: NCall)

  // ------------------------------------------------------------- the static buffers

  /** `TocReply` is the two-word N receive buffer followed by the 3072 bytes of `tocBuff`; the client
      slots hold the server field that a bind fills in. */
  datatype Slot =
    | SSend | SRecv | CfgRecv | DiskReadyMode | InitMode
    | ReadData | RdIntr | TocSend | TocReply
    | ClientInit | ClientSearchFile | ClientDiskReady | ClientNCmd | ClientSCmd

  type Buffers = map<Slot, seq<int>>

  function Size(slot: Slot): nat {
    match slot
    case SSend => 16
    case SRecv => 16
    case CfgRecv => 0x102
    case ReadData => 6
    case RdIntr => 64
    case TocSend => 3
    case TocReply => 2 + 3072
    case _ => 1
  }

  ghost predicate Shaped(buf: Buffers) {
    forall slot :: slot in buf && |buf[slot]| == Size(slot)
  }

  function Put(buf: Buffers, slot: Slot, words: seq<int>): Buffers
    requires Shaped(buf) && |words| <= Size(slot)
  {
    buf[slot := Overwrite(buf[slot], words)]
  }

  /** The two mutexes, how often sbios_unlock found its mutex free, and the last commands checked. */
  datatype Guards = Guards(mutexS: bool, mutexN: bool, errors: nat, sCmdNum: int, nCmdNum: int)

  /** The five bind flags, true for `0` and false for `-1`. */
  datatype Binds = Binds(init: bool, searchFile: bool, diskReady: bool, nCmd: bool, sCmd: bool)

  /** `counter` is cdvdInitCounter. */
  datatype State = State(g: Guards, counter: nat, bound: Binds, buf: Buffers, link: Link<Kind>)

  // ---------------------------------------------------------------- the two locks

  function UnlockS(g: Guards): Guards {
    if g.mutexS then g.(mutexS := false) else g.(errors := g.errors + 1)
  }

  function UnlockN(g: Guards): Guards {
    if g.mutexN then g.(mutexN := false) else g.(errors := g.errors + 1)
  }

  /** `stat` is what SifCheckStatRpc answers. The flag of the result says whether the lock was taken. */
  function LockS(g: Guards, stat: bool): (bool, Guards) {
    if g.mutexS then (false, g)
    else if stat then (false, UnlockS(g.(mutexS := true)))
    else (true, g.(mutexS := true))
  }

  function LockN(g: Guards, stat: bool): (bool, Guards) {
    if g.mutexN then (false, g)
    else if stat then (false, UnlockN(g.(mutexN := true)))
    else (true, g.(mutexN := true))
  }

  function CheckSCmd(g: Guards, bound: bool, cmd: int, stat: bool): (bool, Guards) {
    var (locked, g1) := LockS(g, stat);
    if !locked then (false, g1)
    else
      var g2 := g1.(sCmdNum := cmd);
      if bound then (true, g2) else (false, UnlockS(g2))
  }

  function CheckNCmd(g: Guards, bound: bool, cmd: int, stat: bool): (bool, Guards) {
    var (locked, g1) := LockN(g, stat);
    if !locked then (false, g1)
    else
      var g2 := g1.(nCmdNum := cmd);
      if bound then (true, g2) else (false, UnlockN(g2))
  }

  function TryAgain(inInterrupt: bool): int {
    if inInterrupt then -SIF_RPCE_GETP else -SIF_RPCE_SENDP
  }

  /** Hand the request to the RPC layer while holding S; a refused send gives the lock back. */
  function SendS(s: State, kind: Kind, sent: seq<int>, accepts: bool): (int, State) {
    if accepts then (0, s.(link := s.link.Accept(kind, sent))) else (-SIF_RPCE_SENDP, s.(g := UnlockS(s.g)))
  }

  function SendN(s: State, kind: Kind, sent: seq<int>, accepts: bool): (int, State) {
    if accepts then (0, s.(link := s.link.Accept(kind, sent))) else (-SIF_RPCE_SENDP, s.(g := UnlockN(s.g)))
  }

  // --------------------------------------------------------------------- the calls

  const UNBOUND := Binds(false, false, false, false, false)

  /** sbcall_cdvdinit: one stage per call. */
  function DoInit(s: State, stat: bool, accepts: bool): (int, State)
    requires Shaped(s.buf)
  {
    if s.counter >= 6 then (0, s.(link := s.link.Answer(Init(s.counter), 0)))
    else if s.counter == 4 then
      var (locked, g1) := LockN(s.g, stat);
      if !locked then (-SIF_RPCE_SENDP, s.(g := g1)) else SendN(s.(g := g1), Init(4), [], accepts)
    else
      var (locked, g1) := LockS(s.g, stat);
      if !locked then (-SIF_RPCE_SENDP, s.(g := g1))
      else if s.counter == 0 then SendS(s.(g := g1, bound := UNBOUND), Init(0), [], accepts)
      else if s.counter == 3 then
        SendS(s.(g := g1, buf := Put(s.buf, InitMode, [INIT_NOCHECK])), Init(3), [INIT_NOCHECK], accepts)
      else SendS(s.(g := g1), Init(s.counter), [], accepts)
  }

  function DoReady(s: State, mode: int, stat: bool, accepts: bool): (int, State)
    requires Shaped(s.buf)
  {
    var (locked, g1) := LockS(s.g, stat);
    if !locked then (READY_NOTREADY, s.(g := g1))
    else
      var s1 := s.(g := g1, buf := Put(s.buf, DiskReadyMode, [mode]));
      if !s.bound.diskReady then (-1, s1.(g := UnlockS(g1))) else SendS(s1, Ready(mode), [mode], accepts)
  }

  function SNumber(c: SCall): int {
    match c
    case ReadRtc => 0x01
    case WriteRtc(_, _) => 0x02
    case GetType => 0x03
    case GetError => 0x04
    case TrayRequest(_) => 0x05
    case Mmode(_) => 0x22
    case MmodeEmulated => 0x04
    case OpenConfig(_, _, _) => 0x0E
    case CloseConfig => 0x0F
    case ReadConfig => 0x10
  }

  /** What the call copies into the S command buffer before sending. */
  function SPayload(c: SCall): (w: seq<int>)
    ensures |w| <= 2
  {
    match c
    case WriteRtc(lo, hi) => [lo, hi]
    case TrayRequest(request) => [request]
    case Mmode(media) => [media]
    case OpenConfig(device, mode, blocks) => [(blocks % 256) * 0x10000 + (device % 256) * 0x100 + mode % 256]
    case _ => []
  }

  function DoS(s: State, c: SCall, stat: bool, accepts: bool, inInterrupt: bool): (int, State)
    requires Shaped(s.buf)
  {
    if c == MmodeEmulated && !inInterrupt then (0, s.(link := s.link.Answer(SCmd(c), 1)))
    else
      var (ready, g1) := CheckSCmd(s.g, s.bound.sCmd, SNumber(c), stat);
      if !ready then (TryAgain(inInterrupt), s.(g := g1))
      else SendS(s.(g := g1, buf := Put(s.buf, SSend, SPayload(c))), SCmd(c), SPayload(c), accepts)
  }

  function NNumber(c: NCall): int {
    match c
    case Read(_) => 0x01
    case ReadVideo(_) => 0x03
    case GetToc(_) => 0x04
    case Stop => 0x07
  }

  /** The command buffer of an N call and the words it writes there; a video read leaves the sixth
      word of the read buffer as it was. */
  function NPayload(c: NCall): (w: (Slot, seq<int>))
    ensures |w.1| <= Size(w.0)
  {
    match c
    case Read(a) =>
      (ReadData, [a.lbn, a.sectors, a.dest, a.retries + a.speed * 0x100 + a.sectorType * 0x10000,
                  RD_INTR_ADDR, CUR_READ_POS_ADDR])
    case ReadVideo(a) =>
      (ReadData, [a.lbn, a.sectors, a.dest, a.retries + a.speed * 0x100 + a.sectorType * 0x10000, RD_INTR_ADDR])
    case GetToc(_) => (TocSend, [TOC_ADDR])
    case Stop => (TocSend, [])
  }

  function DoN(s: State, c: NCall, stat: bool, accepts: bool, inInterrupt: bool): (int, State)
    requires Shaped(s.buf)
  {
    var (ready, g1) := CheckNCmd(s.g, s.bound.nCmd, NNumber(c), stat);
    if !ready then (TryAgain(inInterrupt), s.(g := g1))
    else
      var (slot, words) := NPayload(c);
      SendN(s.(g := g1, buf := Put(s.buf, slot, words)), NCmd(c), words, accepts)
  }

  function DoCall(s: State, call: Call, stat: bool, accepts: bool, inInterrupt: bool): (int, State)
    requires Shaped(s.buf)
  {
    match call
    case CallInit => DoInit(s, stat, accepts)
    case CallReady(mode) => DoReady(s, mode, stat, accepts)
    case CallS(c) => DoS(s, c, stat, accepts, inInterrupt)
    case CallN(c) => DoN(s, c, stat, accepts, inInterrupt)
  }

  // ------------------------------------------------------------ replies and callbacks

  /** Where a reply lands and how many words it has; a bind is answered with the server it found. */
  function ReplyTo(kind: Kind): (r: (Slot, nat))
    ensures r.1 <= Size(r.0)
  {
    match kind
    case Init(stage) =>
      if stage == 0 then (ClientInit, 1) else if stage == 1 then (ClientSearchFile, 1)
      else if stage == 2 then (ClientDiskReady, 1) else if stage == 3 then (ClientInit, 0)
      else if stage == 4 then (ClientNCmd, 1) else (ClientSCmd, 1)
    case Ready(_) => (SRecv, 1)
    case SCmd(c) =>
      (match c
       case ReadRtc => (SRecv, 4)
       case WriteRtc(_, _) => (SRecv, 4)
       case TrayRequest(_) => (SRecv, 2)
       case OpenConfig(_, _, _) => (SRecv, 2)
       case CloseConfig => (SRecv, 2)
       case ReadConfig => (CfgRecv, 0x102)
       case _ => (SRecv, 1))
    case NCmd(c) =>
      (match c
       case Read(_) => (RdIntr, 36)
       case GetToc(_) => (TocReply, 2 + 3072)
       case _ => (RdIntr, 0))
  }

  function Not(x: int): int {
    if x == 0 then 1 else 0
  }

  function TocLength(len: nat, media: int): nat {
    var limit := if media != 0 then 2064 else 1024;
    if len > limit then limit else len
  }

  /** What the caller is entitled to be told: result and returned data, from its own reply alone. */
  function Outcome(kind: Kind, reply: seq<int>): (int, seq<int>)
    requires |reply| == ReplyTo(kind).1
  {
    match kind
    case Init(stage) => (if stage == 5 && reply[0] != 0 then 0 else -1, [])
    case Ready(_) => (reply[0], [])
    case SCmd(c) =>
      (match c
       case ReadRtc => (reply[0], reply[1..3])
       case WriteRtc(_, _) => (reply[0], reply[1..3])
       case TrayRequest(_) => (Not(reply[0]), [reply[1]])
       case Mmode(_) => (1, [])
       case MmodeEmulated => (1, [])
       case OpenConfig(_, _, _) => (reply[0], [reply[1]])
       case CloseConfig => (reply[0], [reply[1]])
       case ReadConfig => (reply[0], reply[1..])
       case _ => (reply[0], []))
    case NCmd(c) =>
      (match c
       case Read(_) => (0, reply)
       case GetToc(len) =>
         var n := TocLength(len, reply[1]);
         (Not(reply[0]), [reply[1], n] + reply[2..2 + n])
       case _ => (0, []))
  }

  function Bind(b: Binds, stage: nat): Binds {
    match stage
    case 0 => b.(init := true)
    case 1 => b.(searchFile := true)
    case 2 => b.(diskReady := true)
    case 4 => b.(nCmd := true)
    case 5 => b.(sCmd := true)
    case _ => b
  }

  /** cdvdInitCallback: it looks at the counter, not at the request it answers. */
  function InitCallback(s: State): (State, int)
    requires Shaped(s.buf)
  {
    if s.counter >= 6 then (s, 0)
    else
      var client := ReplyTo(Init(s.counter)).0;
      var good := s.counter == 3 || s.buf[client][0] != 0;
      var s1 := s.(g := if s.counter == 4 then UnlockN(s.g) else UnlockS(s.g));
      (if good then s1.(bound := Bind(s.bound, s.counter), counter := s.counter + 1) else s1,
       if s.counter == 5 && good then 0 else -1)
  }

  /** What the S completion callbacks read out of the shared buffers. */
  function SResult(buf: Buffers, c: SCall): (int, seq<int>)
    requires Shaped(buf)
  {
    var recv := buf[SRecv];
    match c
    case ReadRtc => (recv[0], recv[1..3])
    case WriteRtc(_, _) => (recv[0], recv[1..3])
    case TrayRequest(_) => (Not(recv[0]), [recv[1]])
    case Mmode(_) => (1, [])
    case MmodeEmulated => (1, [])
    case OpenConfig(_, _, _) => (recv[0], [recv[1]])
    case CloseConfig => (recv[0], [recv[1]])
    case ReadConfig => (buf[CfgRecv][0], buf[CfgRecv][1..])
    case _ => (recv[0], [])
  }

  function NResult(buf: Buffers, c: NCall): (int, seq<int>)
    requires Shaped(buf)
  {
    match c
    case Read(_) => (0, buf[RdIntr][..36])
    case GetToc(len) =>
      var n := TocLength(len, buf[TocReply][1]);
      (Not(buf[TocReply][0]), [buf[TocReply][1], n] + buf[TocReply][2..2 + n])
    case _ => (0, [])
  }

  /** A completion callback up to its call of the end function. */
  function CallbackBody(s: State, kind: Kind): (State, int, seq<int>)
    requires Shaped(s.buf)
  {
    match kind
    case Init(_) => (InitCallback(s).0, InitCallback(s).1, [])
    case Ready(_) => (s.(g := UnlockS(s.g)), s.buf[SRecv][0], [])
    case SCmd(c) => (s.(g := UnlockS(s.g)), SResult(s.buf, c).0, SResult(s.buf, c).1)
    case NCmd(c) => (s.(g := UnlockN(s.g)), NResult(s.buf, c).0, NResult(s.buf, c).1)
  }

  // --------------------------------------------------------------------------- runs

  datatype Event =
    | Request(call: Call, stat: bool, accepts: bool, inInterrupt: bool)
    | Reply(i: nat, words: seq<int>)
    | Complete(i: nat)

  predicate CanReply(link: Link<Kind>, i: nat, words: seq<int>) {
    i < |link.pending| && link.pending[i].reply.None? && |words| == ReplyTo(link.pending[i].kind).1
  }

  predicate CanComplete(link: Link<Kind>, i: nat) {
    i < |link.pending| && link.pending[i].reply.Some?
  }

  function Land(s: State, i: nat, words: seq<int>): State
    requires Shaped(s.buf) && CanReply(s.link, i, words)
  {
    s.(buf := Put(s.buf, ReplyTo(s.link.pending[i].kind).0, words), link := s.link.Land(i, words))
  }

  function Callback(s: State, i: nat): State
    requires Shaped(s.buf) && CanComplete(s.link, i)
  {
    var (s1, result, out) := CallbackBody(s, s.link.pending[i].kind);
    s1.(link := s.link.Finish(i, result, out))
  }

  /** An event the environment cannot produce changes nothing. */
  function Step(s: State, e: Event): State
    requires Shaped(s.buf)
  {
    match e
    case Request(call, stat, accepts, inInterrupt) => DoCall(s, call, stat, accepts, inInterrupt).1
    case Reply(i, words) => if CanReply(s.link, i, words) then Land(s, i, words) else s
    case Complete(i) => if CanComplete(s.link, i) then Callback(s, i) else s
  }

  // ------------------------------------------------------------------- the invariant

  predicate SClass(kind: Kind) {
    kind.Ready? || kind.SCmd? || (kind.Init? && kind.stage != 4)
  }

  predicate NClass(kind: Kind) {
    kind.NCmd? || kind == Init(4)
  }

  /** The command buffer the IOP reads for a request. */
  function CommandSlot(kind: Kind): Slot {
    match kind
    case Init(stage) => if stage == 3 then InitMode else ReplyTo(kind).0
    case Ready(_) => DiskReadyMode
    case SCmd(_) => SSend
    case NCmd(c) => NPayload(c).0
  }

  /** A request is only in flight at the stages that allow it. */
  predicate Timely(counter: nat, kind: Kind) {
    match kind
    case Init(stage) => stage == counter < 6
    case Ready(_) => counter >= 3
    case SCmd(_) => counter == 6
    case NCmd(_) => counter >= 5
  }

  /** Its command is still in the buffer, and so is its reply once that has landed. */
  ghost predicate Intact(buf: Buffers, r: SifRpc.Request<Kind>)
    requires Shaped(buf)
  {
    && (r.sent == [] || (CommandSlot(r.kind) != ReplyTo(r.kind).0 && r.sent <= buf[CommandSlot(r.kind)]))
    && (r.reply.Some? ==>
          |r.reply.value| == ReplyTo(r.kind).1 && r.reply.value <= buf[ReplyTo(r.kind).0])
  }

  /** The end call carries the outcome of its own reply, or the fixed answer of a call that sent nothing. */
  predicate Honest(e: EndCall<Kind>) {
    if |e.reply| == ReplyTo(e.kind).1 then (e.result, e.out) == Outcome(e.kind, e.reply)
    else
      && e.reply == [] && e.out == []
      && ((e.kind.Init? && e.kind.stage >= 6 && e.result == 0) || (e.kind == SCmd(MmodeEmulated) && e.result == 1))
  }

  predicate BindsMatch(counter: nat, bound: Binds) {
    && counter <= 6
    && (bound.init <==> counter >= 1)
    && (bound.searchFile <==> counter >= 2)
    && (bound.diskReady <==> counter >= 3)
    && (bound.nCmd <==> counter >= 5)
    && (bound.sCmd <==> counter >= 6)
  }

  predicate LocksMatch(g: Guards, pending: seq<SifRpc.Request<Kind>>) {
    && g.errors == 0
    && Count(pending, SClass) == (if g.mutexS then 1 else 0)
    && Count(pending, NClass) == (if g.mutexN then 1 else 0)
  }

  ghost predicate RequestsGood(counter: nat, buf: Buffers, pending: seq<SifRpc.Request<Kind>>)
    requires Shaped(buf)
  {
    forall i :: 0 <= i < |pending| ==> Timely(counter, pending[i].kind) && Intact(buf, pending[i])
  }

  ghost predicate Inv(s: State) {
    && Shaped(s.buf)
    && s.link.Conserved()
    && BindsMatch(s.counter, s.bound)
    && LocksMatch(s.g, s.link.pending)
    && RequestsGood(s.counter, s.buf, s.link.pending)
    && (forall e :: e in s.link.ended ==> Honest(e))
  }

  // ------------------------------------------------------------ every step keeps it

  predicate SSlot(slot: Slot) {
    slot in {SSend, SRecv, CfgRecv, DiskReadyMode, InitMode, ClientInit, ClientSearchFile, ClientDiskReady, ClientSCmd}
  }

  lemma SlotsByClass(kind: Kind)
    ensures SClass(kind) ==> SSlot(CommandSlot(kind)) && SSlot(ReplyTo(kind).0)
    ensures NClass(kind) ==> !SSlot(CommandSlot(kind)) && !SSlot(ReplyTo(kind).0)
    ensures SClass(kind) <==> !NClass(kind)
  {}

  /** Requests none of which looks at the given slot. */
  predicate Elsewhere(pending: seq<SifRpc.Request<Kind>>, slot: Slot) {
    forall i :: 0 <= i < |pending| ==> if SSlot(slot) then NClass(pending[i].kind) else SClass(pending[i].kind)
  }

  /** With its lock free, no request in flight looks at a slot. */
  lemma FreeSlot(pending: seq<SifRpc.Request<Kind>>, slot: Slot)
    requires Count(pending, if SSlot(slot) then SClass else NClass) == 0
    ensures Elsewhere(pending, slot)
  {
    NoneInClass(pending, if SSlot(slot) then SClass else NClass);
    forall i | 0 <= i < |pending| ensures if SSlot(slot) then NClass(pending[i].kind) else SClass(pending[i].kind) {
      SlotsByClass(pending[i].kind);
    }
  }

  /** Writing a slot leaves the requests elsewhere intact. */
  lemma PutKeeps(counter: nat, buf: Buffers, slot: Slot, words: seq<int>, pending: seq<SifRpc.Request<Kind>>)
    requires Shaped(buf) && |words| <= Size(slot)
    requires RequestsGood(counter, buf, pending) && Elsewhere(pending, slot)
    ensures Shaped(Put(buf, slot, words)) && RequestsGood(counter, Put(buf, slot, words), pending)
  {
    forall i | 0 <= i < |pending| ensures Intact(Put(buf, slot, words), pending[i]) {
      SlotsByClass(pending[i].kind);
    }
  }

  lemma AppendGood(counter: nat, buf: Buffers, pending: seq<SifRpc.Request<Kind>>, r: SifRpc.Request<Kind>)
    requires Shaped(buf) && RequestsGood(counter, buf, pending)
    requires Timely(counter, r.kind) && Intact(buf, r)
    ensures RequestsGood(counter, buf, pending + [r])
  {}

  /** An accepted send of a request that fits the current stage and its freshly filled buffer. */
  lemma SendKeeps(s: State, s': State, kind: Kind, slot: Slot, words: seq<int>)
    requires Inv(s) && |words| <= Size(slot) && s'.buf == Put(s.buf, slot, words)
    requires s'.link == s.link.Accept(kind, words)
    requires BindsMatch(s'.counter, s'.bound) && s'.counter == s.counter && s'.g.errors == 0
    requires if SClass(kind) then !s.g.mutexS && s'.g.mutexS && s'.g.mutexN == s.g.mutexN
             else !s.g.mutexN && s'.g.mutexN && s'.g.mutexS == s.g.mutexS
    requires SSlot(slot) == SClass(kind) && (words == [] || slot == CommandSlot(kind) != ReplyTo(kind).0)
    requires Timely(s.counter, kind)
    ensures Inv(s')
  {
    hide NPayload, ReplyTo, CommandSlot, Timely, Honest, Size, SSlot, BindsMatch;
    var r := SifRpc.Request(s.link.issued, kind, words, None);
    SlotsByClass(kind);
    FreeSlot(s.link.pending, slot);
    PutKeeps(s.counter, s.buf, slot, words, s.link.pending);
    AppendGood(s.counter, s'.buf, s.link.pending, r);
    AcceptConserves(s.link, kind, words);
    CountAppend(s.link.pending, r, SClass);
    CountAppend(s.link.pending, r, NClass);
  }

  /** A call that ends up sending nothing may still have written a buffer, with the lock held. */
  lemma RefusedKeeps(s: State, s': State, slot: Slot, words: seq<int>)
    requires Inv(s) && |words| <= Size(slot) && s'.buf == Put(s.buf, slot, words)
    requires s'.link == s.link && BindsMatch(s'.counter, s'.bound) && s'.counter == s.counter && s'.g.errors == 0
    requires s'.g.mutexS == s.g.mutexS && s'.g.mutexN == s.g.mutexN
    requires if SSlot(slot) then !s.g.mutexS else !s.g.mutexN
    ensures Inv(s')
  {
    FreeSlot(s.link.pending, slot);
    PutKeeps(s.counter, s.buf, slot, words, s.link.pending);
  }

  /** Overwriting nothing changes nothing, so a call with no payload fits the two lemmas above. */
  lemma PutNothing(buf: Buffers, slot: Slot)
    requires Shaped(buf)
    ensures Put(buf, slot, []) == buf
  {
    assert Overwrite(buf[slot], []) == buf[slot];
  }

  lemma DoInitKeeps(s: State, stat: bool, accepts: bool)
    requires Inv(s)
    ensures Inv(DoInit(s, stat, accepts).1)
  {
    var s' := DoInit(s, stat, accepts).1;
    PutNothing(s.buf, ClientInit);
    PutNothing(s.buf, ClientNCmd);
    if s.counter >= 6 {
      AnswerConserves(s.link, Init(s.counter), 0);
    } else if s.counter == 4 {
      if !s.g.mutexN && !stat && accepts {
        SendKeeps(s, s', Init(4), ClientNCmd, []);
      }
    } else if !s.g.mutexS && !stat {
      var slot, words := if s.counter == 3 then InitMode else ClientInit, if s.counter == 3 then [INIT_NOCHECK] else [];
      if accepts {
        SendKeeps(s, s', Init(s.counter), slot, words);
      } else {
        RefusedKeeps(s, s', slot, words);
      }
    }
  }

  lemma DoReadyKeeps(s: State, mode: int, stat: bool, accepts: bool)
    requires Inv(s)
    ensures Inv(DoReady(s, mode, stat, accepts).1)
  {
    var s' := DoReady(s, mode, stat, accepts).1;
    if !s.g.mutexS && !stat {
      if s.bound.diskReady && accepts {
        SendKeeps(s, s', Ready(mode), DiskReadyMode, [mode]);
      } else {
        RefusedKeeps(s, s', DiskReadyMode, [mode]);
      }
    }
  }

  lemma DoSKeeps(s: State, c: SCall, stat: bool, accepts: bool, inInterrupt: bool)
    requires Inv(s)
    ensures Inv(DoS(s, c, stat, accepts, inInterrupt).1)
  {
    hide SPayload, SNumber, Timely, Intact, ReplyTo, CommandSlot, Put, Shaped, Count;
    if c == MmodeEmulated && !inInterrupt {
      AnswerConserves(s.link, SCmd(c), 1);
      assert Honest(EndCall(s.link.issued, SCmd(c), [], 1, [])) by { EmulatedHonest(s.link.issued); }
    } else {
      var cmd, words := SNumber(c), SPayload(c);
      if CheckSCmd(s.g, s.bound.sCmd, cmd, stat).0 {
        SendSKeeps(s, c, cmd, words, accepts);
      }
    }
  }

  lemma EmulatedHonest(id: nat)
    ensures Honest(EndCall(id, SCmd(MmodeEmulated), [], 1, []))
  {}

  lemma SendSKeeps(s: State, c: SCall, cmd: int, words: seq<int>, accepts: bool)
    requires Inv(s) && !s.g.mutexS && s.bound.sCmd && |words| <= Size(SSend)
    ensures Inv(SendS(s.(g := s.g.(mutexS := true, sCmdNum := cmd), buf := Put(s.buf, SSend, words)),
                      SCmd(c), words, accepts).1)
  {
    var s1 := s.(g := s.g.(mutexS := true, sCmdNum := cmd), buf := Put(s.buf, SSend, words));
    var s' := SendS(s1, SCmd(c), words, accepts).1;
    if accepts {
      SendKeeps(s, s', SCmd(c), SSend, words);
    } else {
      RefusedKeeps(s, s', SSend, words);
    }
  }

  lemma DoNKeeps(s: State, c: NCall, stat: bool, accepts: bool, inInterrupt: bool)
    requires Inv(s)
    ensures Inv(DoN(s, c, stat, accepts, inInterrupt).1)
  {
    var s' := DoN(s, c, stat, accepts, inInterrupt).1;
    if !s.g.mutexN && !stat && s.bound.nCmd {
      if accepts {
        SendKeeps(s, s', NCmd(c), NPayload(c).0, NPayload(c).1);
      } else {
        RefusedKeeps(s, s', NPayload(c).0, NPayload(c).1);
      }
    }
  }

  /** Two requests in flight are of different classes. */
  lemma OthersElsewhere(s: State, i: nat)
    requires LocksMatch(s.g, s.link.pending) && i < |s.link.pending|
    ensures var kind := s.link.pending[i].kind;
            && (SClass(kind) ==> s.g.mutexS) && (NClass(kind) ==> s.g.mutexN)
            && forall j :: 0 <= j < |s.link.pending| && j != i ==>
                 if SClass(kind) then NClass(s.link.pending[j].kind) else SClass(s.link.pending[j].kind)
  {
    var kind := s.link.pending[i].kind;
    CountWitness(s.link.pending, i, if SClass(kind) then SClass else NClass);
    forall j | 0 <= j < |s.link.pending| && j != i
      ensures if SClass(kind) then NClass(s.link.pending[j].kind) else SClass(s.link.pending[j].kind)
    {
      SlotsByClass(s.link.pending[j].kind);
    }
  }

  lemma GoodWithout(counter: nat, buf: Buffers, pending: seq<SifRpc.Request<Kind>>, i: nat)
    requires Shaped(buf) && i < |pending|
    requires forall j :: 0 <= j < |pending| && j != i ==> Timely(counter, pending[j].kind) && Intact(buf, pending[j])
    ensures RequestsGood(counter, buf, Remove(pending, i))
  {
    forall j | 0 <= j < |pending| - 1
      ensures Timely(counter, Remove(pending, i)[j].kind) && Intact(buf, Remove(pending, i)[j])
    {
      assert Remove(pending, i)[j] == pending[if j < i then j else j + 1];
    }
  }

  lemma LandGood(counter: nat, buf: Buffers, pending: seq<SifRpc.Request<Kind>>, i: nat, words: seq<int>)
    requires Shaped(buf) && RequestsGood(counter, buf, pending)
    requires i < |pending| && pending[i].reply.None? && |words| == ReplyTo(pending[i].kind).1
    requires forall j :: 0 <= j < |pending| && j != i ==>
               if SClass(pending[i].kind) then NClass(pending[j].kind) else SClass(pending[j].kind)
    ensures var after := Put(buf, ReplyTo(pending[i].kind).0, words);
            Shaped(after) && RequestsGood(counter, after, pending[i := pending[i].(reply := Some(words))])
  {
    var slot := ReplyTo(pending[i].kind).0;
    var after := Put(buf, slot, words);
    var landed := pending[i := pending[i].(reply := Some(words))];
    SlotsByClass(pending[i].kind);
    forall j | 0 <= j < |landed| ensures Timely(counter, landed[j].kind) && Intact(after, landed[j]) {
      assert Timely(counter, pending[j].kind) && Intact(buf, pending[j]);
      SlotsByClass(pending[j].kind);
    }
  }

  lemma LandKeeps(s: State, i: nat, words: seq<int>)
    requires Inv(s) && CanReply(s.link, i, words)
    ensures Inv(Land(s, i, words))
  {
    hide Timely, Honest, BindsMatch, NPayload, CommandSlot, Intact;
    var s' := Land(s, i, words);
    LandConserves(s.link, i, words);
    CountSameKinds(s.link.pending, s'.link.pending, SClass);
    CountSameKinds(s.link.pending, s'.link.pending, NClass);
    OthersElsewhere(s, i);
    LandGood(s.counter, s.buf, s.link.pending, i, words);
  }

  lemma FinishKeeps(s: State, s': State, i: nat, result: int, out: seq<int>)
    requires Inv(s) && CanComplete(s.link, i)
    requires s'.buf == s.buf && s'.link == s.link.Finish(i, result, out)
    requires BindsMatch(s'.counter, s'.bound) && s'.g.errors == 0
    requires s'.g.mutexS == (s.g.mutexS && !SClass(s.link.pending[i].kind))
    requires s'.g.mutexN == (s.g.mutexN && !NClass(s.link.pending[i].kind))
    requires |s.link.pending[i].reply.value| == ReplyTo(s.link.pending[i].kind).1
    requires (result, out) == Outcome(s.link.pending[i].kind, s.link.pending[i].reply.value)
    requires forall j :: 0 <= j < |s.link.pending| && j != i ==> Timely(s'.counter, s.link.pending[j].kind)
    ensures Inv(s')
  {
    hide NPayload, ReplyTo, CommandSlot, Timely, Size, SSlot, Outcome, BindsMatch, Intact, SClass, NClass;
    FinishConserves(s.link, i, result, out);
    CountRemove(s.link.pending, i, SClass);
    CountRemove(s.link.pending, i, NClass);
    OthersElsewhere(s, i);
    GoodWithout(s'.counter, s.buf, s.link.pending, i);
  }

  /** The buffers a callback reads hold its own reply, so it tells the caller what it should. */
  lemma CallbackHonest(s: State, i: nat)
    requires Inv(s) && CanComplete(s.link, i)
    ensures var r := s.link.pending[i];
            && |r.reply.value| == ReplyTo(r.kind).1
            && (CallbackBody(s, r.kind).1, CallbackBody(s, r.kind).2) == Outcome(r.kind, r.reply.value)
  {
    var r := s.link.pending[i];
    assert Timely(s.counter, r.kind) && Intact(s.buf, r);
    var reply, area := r.reply.value, s.buf[ReplyTo(r.kind).0];
    assert reply == area[..|reply|];
    if |reply| >= 3 {
      assert reply[1..3] == area[1..3];
    }
    if |reply| == |area| {
      assert reply == area;
    }
  }

  lemma CallbackKeeps(s: State, i: nat)
    requires Inv(s) && CanComplete(s.link, i)
    ensures Inv(Callback(s, i))
  {
    var kind := s.link.pending[i].kind;
    var (s1, result, out) := CallbackBody(s, kind);
    CallbackHonest(s, i);
    OthersElsewhere(s, i);
    SlotsByClass(kind);
    assert Timely(s.counter, kind);
    forall j | 0 <= j < |s.link.pending| && j != i ensures Timely(s1.counter, s.link.pending[j].kind) {
      assert Timely(s.counter, s.link.pending[j].kind);
      SlotsByClass(s.link.pending[j].kind);
    }
    FinishKeeps(s, Callback(s, i), i, result, out);
  }

  lemma StepKeeps(s: State, e: Event)
    requires Inv(s)
    ensures Inv(Step(s, e))
  {
    match e
    case Request(CallInit, stat, accepts, _) => DoInitKeeps(s, stat, accepts);
    case Request(CallReady(mode), stat, accepts, _) => DoReadyKeeps(s, mode, stat, accepts);
    case Request(CallS(c), stat, accepts, inInterrupt) => DoSKeeps(s, c, stat, accepts, inInterrupt);
    case Request(CallN(c), stat, accepts, inInterrupt) => DoNKeeps(s, c, stat, accepts, inInterrupt);
    case Reply(i, words) => if CanReply(s.link, i, words) { LandKeeps(s, i, words); }
    case Complete(i) => if CanComplete(s.link, i) { CallbackKeeps(s, i); }
  }

  /** Power-on: both locks free, nothing bound, nothing in flight; the buffers hold anything. */
  ghost predicate PowerOn(s: State) {
    && Shaped(s.buf)
    && !s.g.mutexS && !s.g.mutexN && s.g.errors == 0
    && s.counter == 0 && s.bound == UNBOUND
    && s.link == Link(0, [], [])
  }

  ghost function Run(s: State, events: seq<Event>): (t: State)
    requires Inv(s)
    ensures Inv(t)
    decreases |events|
  {
    if events == [] then s
    else
      StepKeeps(s, events[0]);
      Run(Step(s, events[0]), events[1..])
  }

  lemma PowerOnGood(s: State)
    requires PowerOn(s)
    ensures Inv(s)
  {
    assert Range(0) == [];
  }

  /** The state after a run of events from power-on. */
  ghost function Reached(s: State, events: seq<Event>): (t: State)
    requires PowerOn(s)
    ensures Inv(t)
  {
    PowerOnGood(s);
    Run(s, events)
  }

  // ------------------------------------------------------------------ main results

  /** Over every run, S is held exactly while one S-class request is in flight and N exactly while one
      N-class request is; there are never two of either, and no unlock finds its mutex free. */
  lemma LocksGuardOneRequest(s: State, events: seq<Event>)
    requires PowerOn(s)
    ensures var t := Reached(s, events);
            && t.g.errors == 0
            && (t.g.mutexS <==> exists i :: 0 <= i < |t.link.pending| && SClass(t.link.pending[i].kind))
            && (t.g.mutexN <==> exists i :: 0 <= i < |t.link.pending| && NClass(t.link.pending[i].kind))
            && |t.link.pending| == (if t.g.mutexS then 1 else 0) + (if t.g.mutexN then 1 else 0)
  {
    var t := Reached(s, events);
    if !t.g.mutexS { NoneInClass(t.link.pending, SClass); }
    if !t.g.mutexN { NoneInClass(t.link.pending, NClass); }
    CountBoth(t.link.pending);
    if t.g.mutexS { CountSome(t.link.pending, SClass); }
    if t.g.mutexN { CountSome(t.link.pending, NClass); }
  }

  lemma {:induction false} CountBoth(pending: seq<SifRpc.Request<Kind>>)
    ensures Count(pending, SClass) + Count(pending, NClass) == |pending|
  {
    if pending != [] {
      CountBoth(pending[..|pending| - 1]);
      SlotsByClass(pending[|pending| - 1].kind);
    }
  }

  /** Over every run of the staged bind, with any retries and failed binds: the counter says exactly
      which services are bound, at most one init request is in flight and it is the counter's own, and a
      command is only in flight once the stage that binds its service is past. */
  lemma CounterDecidesBinds(s: State, events: seq<Event>)
    requires PowerOn(s)
    ensures var t := Reached(s, events);
            && BindsMatch(t.counter, t.bound)
            && (forall i :: 0 <= i < |t.link.pending| ==> Timely(t.counter, t.link.pending[i].kind))
            && (forall i, j :: 0 <= i < j < |t.link.pending| ==>
                  !(t.link.pending[i].kind.Init? && t.link.pending[j].kind.Init?))
  {
    var t := Reached(s, events);
    assert forall i :: 0 <= i < |t.link.pending| ==> Timely(t.counter, t.link.pending[i].kind);
    forall i, j | 0 <= i < j < |t.link.pending| && t.link.pending[i].kind.Init? && t.link.pending[j].kind.Init?
      ensures false
    {
      assert Timely(t.counter, t.link.pending[i].kind) && Timely(t.counter, t.link.pending[j].kind);
      OthersElsewhere(t, i);
      SlotsByClass(t.link.pending[i].kind);
      SlotsByClass(t.link.pending[j].kind);
    }
  }

  /** The event is the callback of the counter's own init request, and the request was stage 3 or a bind
      that was answered with a server. */
  predicate StageDone(s: State, e: Event) {
    && e.Complete? && CanComplete(s.link, e.i)
    && s.link.pending[e.i].kind == Init(s.counter)
    && (s.counter == 3 || (s.link.pending[e.i].reply.value != [] && s.link.pending[e.i].reply.value[0] != 0))
  }

  /** The counter rises by one at a time, exactly when its own stage is done. */
  lemma CounterRisesByOne(s: State, e: Event)
    requires Inv(s)
    ensures Step(s, e).counter == s.counter + (if StageDone(s, e) then 1 else 0)
  {
    if e.Request? {
      CallsKeepCounter(s, e.call, e.stat, e.accepts, e.inInterrupt);
    } else if e.Complete? && CanComplete(s.link, e.i) {
      var r := s.link.pending[e.i];
      assert Timely(s.counter, r.kind) && Intact(s.buf, r);
      assert Callback(s, e.i).counter == CallbackBody(s, r.kind).0.counter;
    }
  }

  lemma CallsKeepCounter(s: State, call: Call, stat: bool, accepts: bool, inInterrupt: bool)
    requires Shaped(s.buf)
    ensures DoCall(s, call, stat, accepts, inInterrupt).1.counter == s.counter
  {}

  /** While a request is in flight nothing rewrites the command it sent, and once its reply has landed
      nothing rewrites that before its callback has read it. */
  lemma BuffersHoldTheirRequest(s: State, events: seq<Event>, i: nat)
    requires PowerOn(s)
    requires i < |Reached(s, events).link.pending|
    ensures var t := Reached(s, events);
            var r := t.link.pending[i];
            && (r.sent == [] || r.sent <= t.buf[CommandSlot(r.kind)])
            && (r.reply.Some? ==> r.reply.value <= t.buf[ReplyTo(r.kind).0])
  {
    assert Intact(Reached(s, events).buf, Reached(s, events).link.pending[i]);
  }

  /** Over every run an accepted call is either in flight or has had its end function called, exactly
      once, and with the outcome of its own reply. */
  lemma EveryCallEndsOnce(s: State, events: seq<Event>, id: nat)
    requires PowerOn(s)
    ensures var link := Reached(s, events).link;
            && multiset(Ids(link.pending))[id] + multiset(EndIds(link.ended))[id] == (if id < link.issued then 1 else 0)
            && forall e :: e in link.ended ==> Honest(e)
  {
    ExactlyOnce(Reached(s, events).link, id);
  }

  predicate FromIop(events: seq<Event>) {
    forall e :: e in events ==> !e.Request?
  }

  lemma NoneWaiting(s: State)
    requires Inv(s) && s.link.pending == []
    ensures !s.g.mutexS && !s.g.mutexN
  {}

  /** Replies and callbacks alone always finish what is in flight, freeing both locks. */
  lemma {:induction false} Drains(s: State) returns (events: seq<Event>)
    requires Inv(s)
    ensures FromIop(events)
    ensures var t := Run(s, events);
            t.link.pending == [] && t.link.issued == s.link.issued && !t.g.mutexS && !t.g.mutexN
    decreases |s.link.pending|, |s.link.pending| > 0 && s.link.pending[0].reply.None?
  {
    hide Timely, Intact, Outcome, Honest, BindsMatch, CallbackBody, Put, Shaped, LocksMatch, RequestsGood;
    if s.link.pending == [] {
      NoneWaiting(s);
      events := [];
    } else {
      var r := s.link.pending[0];
      var e := if r.reply.None? then Reply(0, seq(ReplyTo(r.kind).1, _ => 0)) else Complete(0);
      StepKeeps(s, e);
      var rest := Drains(Step(s, e));
      events := [e] + rest;
      assert events[1..] == rest;
    }
  }

  /** A call returns 0 exactly when its end function has been or will be called; any other return leaves
      both mutexes, the bind stage and what is in flight as they were. */
  lemma ZeroMeansAccepted(s: State, call: Call, stat: bool, accepts: bool, inInterrupt: bool)
    requires Inv(s)
    ensures var (rc, s') := DoCall(s, call, stat, accepts, inInterrupt);
            && (rc == 0 <==> s'.link.issued == s.link.issued + 1)
            && (rc != 0 ==> s'.link == s.link && s'.g.mutexS == s.g.mutexS && s'.g.mutexN == s.g.mutexN && s'.counter == s.counter)
  {
    hide SNumber, NNumber, SPayload, NPayload, Put, Count, Timely, Intact, Honest, Shaped;
  }

  /** The words packed from byte fields give the fields back. */
  lemma PackedFieldsRecoverable(a: ReadArgs, device: int, mode: int, blocks: int)
    requires 0 <= a.retries < 256 && 0 <= a.speed < 256 && 0 <= a.sectorType < 256
    ensures var w := NPayload(Read(a)).1[3];
            w % 256 == a.retries && w / 0x100 % 256 == a.speed && w / 0x10000 == a.sectorType
    ensures var w := SPayload(OpenConfig(device, mode, blocks))[0];
            0 <= w < 0x100_0000 && w % 256 == mode % 256 && w / 0x100 % 256 == device % 256 && w / 0x10000 == blocks % 256
  {}
}
