/** The CDVD globals and the functions that update them, each proved to take the step of module Cdvd. */
module CdvdDriver {
  import opened SifRpc
  import opened Cdvd

  /** sbios_mutex_t; `errors` counts the times its unlock reports "mutex err". */
  class Mutex {
    var held: bool
    var errors: nat

    constructor ()
      ensures !held && errors == 0
    {
      held, errors := false, 0;
    }

    method TryLock() returns (rc: int)
      modifies this
      ensures held && errors == old(errors)
      ensures rc == if old(held) then -2 else 0
    {
      if held {
        rc := -2;
      } else {
        held := true;
        rc := 0;
      }
    }

    method Unlock()
      modifies this
      ensures !held
      ensures errors == old(errors) + (if old(held) then 0 else 1)
    {
      if held {
        held := false;
      } else {
        errors := errors + 1;
      }
    }
  }

  class Driver {
    const mutexS: Mutex
    const mutexN: Mutex
    var counter: nat
    var bound: Binds
    var sCmdNum: int
    var nCmdNum: int
    var buf: Buffers
    var link: Link<Kind>

    ghost predicate Valid()
      reads this
    {
      mutexS != mutexN && Shaped(buf)
    }

    ghost function Held(): Guards
      reads this, mutexS, mutexN
    {
      Guards(mutexS.held, mutexN.held, mutexS.errors + mutexN.errors, sCmdNum, nCmdNum)
    }

    ghost function Snapshot(): State
      reads this, mutexS, mutexN
    {
      State(Held(), counter, bound, buf, link)
    }

    constructor (buffers: Buffers)
      requires Shaped(buffers)
      ensures Valid() && fresh(mutexS) && fresh(mutexN) && PowerOn(Snapshot())
    {
      mutexS := new Mutex();
      mutexN := new Mutex();
      counter, bound, sCmdNum, nCmdNum := 0, UNBOUND, 0, 0;
      buf, link := buffers, Link(0, [], []);
    }

    /** cdvdLockS; the result says whether the lock was refused. */
    method LockS(stat: bool) returns (busy: bool)
      requires Valid()
      modifies mutexS
      ensures (!busy, Held()) == Cdvd.LockS(old(Held()), stat)
    {
      var rc := mutexS.TryLock();
      if rc != 0 {
        return true;
      }
      if stat {
        mutexS.Unlock();
        return true;
      }
      return false;
    }

    method LockN(stat: bool) returns (busy: bool)
      requires Valid()
      modifies mutexN
      ensures (!busy, Held()) == Cdvd.LockN(old(Held()), stat)
    {
      var rc := mutexN.TryLock();
      if rc != 0 {
        return true;
      }
      if stat {
        mutexN.Unlock();
        return true;
      }
      return false;
    }

    method UnlockS()
      requires Valid()
      modifies mutexS
      ensures Held() == Cdvd.UnlockS(old(Held()))
    {
      mutexS.Unlock();
    }

    method UnlockN()
      requires Valid()
      modifies mutexN
      ensures Held() == Cdvd.UnlockN(old(Held()))
    {
      mutexN.Unlock();
    }

    method CheckSCmd(cmd: int, stat: bool) returns (ready: bool)
      requires Valid()
      modifies mutexS, `sCmdNum
      ensures (ready, Held()) == Cdvd.CheckSCmd(old(Held()), bound.sCmd, cmd, stat)
    {
      var busy := LockS(stat);
      if busy {
        return false;
      }
      sCmdNum := cmd;
      if bound.sCmd {
        return true;
      }
      UnlockS();
      return false;
    }

    method CheckNCmd(cmd: int, stat: bool) returns (ready: bool)
      requires Valid()
      modifies mutexN, `nCmdNum
      ensures (ready, Held()) == Cdvd.CheckNCmd(old(Held()), bound.nCmd, cmd, stat)
    {
      var busy := LockN(stat);
      if busy {
        return false;
      }
      nCmdNum := cmd;
      if bound.nCmd {
        return true;
      }
      UnlockN();
      return false;
    }

    /** SifBindRpc and SifCallRpc without waiting. */
    method SifSend(kind: Kind, sent: seq<int>, accepts: bool) returns (rc: int)
      modifies `link
      ensures rc < 0 <==> !accepts
      ensures link == if accepts then old(link).Accept(kind, sent) else old(link)
    {
      if !accepts {
        return -1;
      }
      link := link.Accept(kind, sent);
      return 0;
    }

    method CdvdInit(stat: bool, accepts: bool) returns (rc: int)
      requires Valid()
      modifies this, mutexS, mutexN
      ensures Valid() && (rc, Snapshot()) == DoInit(old(Snapshot()), stat, accepts)
    {
      if counter >= 6 {
        link := link.Answer(Init(counter), 0);
        return 0;
      }
      if counter == 4 {
        var busy := LockN(stat);
        if busy {
          return -SIF_RPCE_SENDP;
        }
        rc := SifSend(Init(4), [], accepts);
        if rc < 0 {
          UnlockN();
          return -SIF_RPCE_SENDP;
        }
        return 0;
      }
      var busy := LockS(stat);
      if busy {
        return -SIF_RPCE_SENDP;
      }
      if counter == 0 {
        bound := UNBOUND;
        rc := SifSend(Init(0), [], accepts);
      } else if counter == 3 {
        buf := Put(buf, InitMode, [INIT_NOCHECK]);
        rc := SifSend(Init(3), [INIT_NOCHECK], accepts);
      } else {
        rc := SifSend(Init(counter), [], accepts);
      }
      if rc < 0 {
        UnlockS();
        return -SIF_RPCE_SENDP;
      }
      return 0;
    }

    method CdvdReady(mode: int, stat: bool, accepts: bool) returns (rc: int)
      requires Valid()
      modifies this, mutexS
      ensures Valid() && (rc, Snapshot()) == DoReady(old(Snapshot()), mode, stat, accepts)
    {
      var busy := LockS(stat);
      if busy {
        return READY_NOTREADY;
      }
      buf := Put(buf, DiskReadyMode, [mode]);
      if !bound.diskReady {
        UnlockS();
        return -1;
      }
      rc := SifSend(Ready(mode), [mode], accepts);
      if rc < 0 {
        UnlockS();
        return -SIF_RPCE_SENDP;
      }
      return 0;
    }

    /** The S commands differ in number, payload, receive buffer and completion callback. */
    method SCommand(c: SCall, stat: bool, accepts: bool, inInterrupt: bool) returns (rc: int)
      requires Valid()
      modifies this, mutexS
      ensures Valid() && (rc, Snapshot()) == DoS(old(Snapshot()), c, stat, accepts, inInterrupt)
    {
      if c == MmodeEmulated && !inInterrupt {
        link := link.Answer(SCmd(c), 1);
        return 0;
      }
      var cmd, words := SNumber(c), SPayload(c);
      var ready := CheckSCmd(cmd, stat);
      if !ready {
        return TryAgain(inInterrupt);
      }
      buf := Put(buf, SSend, words);
      rc := SifSend(SCmd(c), words, accepts);
      if rc < 0 {
        UnlockS();
        return -SIF_RPCE_SENDP;
      }
      return 0;
    }

    method NCommand(c: NCall, stat: bool, accepts: bool, inInterrupt: bool) returns (rc: int)
      requires Valid()
      modifies this, mutexN
      ensures Valid() && (rc, Snapshot()) == DoN(old(Snapshot()), c, stat, accepts, inInterrupt)
    {
      var ready := CheckNCmd(NNumber(c), stat);
      if !ready {
        return TryAgain(inInterrupt);
      }
      var (slot, words) := NPayload(c);
      buf := Put(buf, slot, words);
      rc := SifSend(NCmd(c), words, accepts);
      if rc < 0 {
        UnlockN();
        return -SIF_RPCE_SENDP;
      }
      return 0;
    }

    /** The IOP's reply reaches the area its request named. */
    method Receive(i: nat, words: seq<int>)
      requires Valid() && CanReply(link, i, words)
      modifies `buf, `link
      ensures Valid() && Snapshot() == Land(old(Snapshot()), i, words)
    {
      buf := Put(buf, ReplyTo(link.pending[i].kind).0, words);
      link := link.Land(i, words);
    }

    method InitCompleted(i: nat)
      requires Valid() && CanComplete(link, i) && link.pending[i].kind.Init?
      modifies this, mutexS, mutexN
      ensures Valid() && Snapshot() == Callback(old(Snapshot()), i)
    {
      var result := 0;
      var good := false;
      if counter <= 5 {
        good := counter == 3 || buf[ReplyTo(Init(counter)).0][0] != 0;
        result := if counter == 5 && good then 0 else -1;
        var stage := counter;
        if good {
          bound := Bind(bound, counter);
          counter := counter + 1;
        }
        if stage == 4 {
          UnlockN();
        } else {
          UnlockS();
        }
      }
      link := link.Finish(i, result, []);
    }

    method DiskReadyCompleted(i: nat)
      requires Valid() && CanComplete(link, i) && link.pending[i].kind.Ready?
      modifies this, mutexS
      ensures Valid() && Snapshot() == Callback(old(Snapshot()), i)
    {
      var result := buf[SRecv][0];
      UnlockS();
      link := link.Finish(i, result, []);
    }

    /** cdvdreadrtcStage2, for the clock in both directions. */
    method ReadRtcStage2(i: nat)
      requires Valid() && CanComplete(link, i)
      requires link.pending[i].kind.SCmd? && (link.pending[i].kind.s.ReadRtc? || link.pending[i].kind.s.WriteRtc?)
      modifies this, mutexS
      ensures Valid() && Snapshot() == Callback(old(Snapshot()), i)
    {
      var clock := buf[SRecv][1..3];
      var result := buf[SRecv][0];
      UnlockS();
      link := link.Finish(i, result, clock);
    }

    /** SCmdStage2, for the disc type and the last error. */
    method SCmdStage2(i: nat)
      requires Valid() && CanComplete(link, i)
      requires link.pending[i].kind.SCmd? && (link.pending[i].kind.s.GetType? || link.pending[i].kind.s.GetError?)
      modifies this, mutexS
      ensures Valid() && Snapshot() == Callback(old(Snapshot()), i)
    {
      var result := buf[SRecv][0];
      UnlockS();
      link := link.Finish(i, result, []);
    }

    /** cdvdtrayrequestStage2. */
    method TrayRequestStage2(i: nat)
      requires Valid() && CanComplete(link, i)
      requires link.pending[i].kind.SCmd? && link.pending[i].kind.s.TrayRequest?
      modifies this, mutexS
      ensures Valid() && Snapshot() == Callback(old(Snapshot()), i)
    {
      var trayCount := buf[SRecv][1];
      var result := if buf[SRecv][0] == 0 then 1 else 0;
      UnlockS();
      link := link.Finish(i, result, [trayCount]);
    }

    /** MmodeStage2, which reads no reply; also after the GETERROR sent in its place. */
    method MmodeStage2(i: nat)
      requires Valid() && CanComplete(link, i)
      requires link.pending[i].kind.SCmd? && (link.pending[i].kind.s.Mmode? || link.pending[i].kind.s.MmodeEmulated?)
      modifies this, mutexS
      ensures Valid() && Snapshot() == Callback(old(Snapshot()), i)
    {
      UnlockS();
      link := link.Finish(i, 1, []);
    }

    /** cdvdconfigStage2, for open and close. */
    method ConfigStage2(i: nat)
      requires Valid() && CanComplete(link, i)
      requires link.pending[i].kind.SCmd? && (link.pending[i].kind.s.OpenConfig? || link.pending[i].kind.s.CloseConfig?)
      modifies this, mutexS
      ensures Valid() && Snapshot() == Callback(old(Snapshot()), i)
    {
      var status := buf[SRecv][1];
      var result := buf[SRecv][0];
      UnlockS();
      link := link.Finish(i, result, [status]);
    }

    /** cdvdreadconfigStage2: the status, then the block of 0x400 bytes. */
    method ReadConfigStage2(i: nat)
      requires Valid() && CanComplete(link, i)
      requires link.pending[i].kind.SCmd? && link.pending[i].kind.s.ReadConfig?
      modifies this, mutexS
      ensures Valid() && Snapshot() == Callback(old(Snapshot()), i)
    {
      var status := buf[CfgRecv][1];
      var data := buf[CfgRecv][2..];
      assert [status] + data == buf[CfgRecv][1..];
      var result := buf[CfgRecv][0];
      UnlockS();
      link := link.Finish(i, result, [status] + data);
    }

    /** cdAlignReadBuffer hands on the area it copies from. */
    method AlignReadBuffer(i: nat)
      requires Valid() && CanComplete(link, i)
      requires link.pending[i].kind.NCmd? && link.pending[i].kind.n.Read?
      modifies this, mutexN
      ensures Valid() && Snapshot() == Callback(old(Snapshot()), i)
    {
      var area := buf[RdIntr][..36];
      UnlockN();
      link := link.Finish(i, 0, area);
    }

    /** cdCallback and NCmdCallback, for a video read and a stop. */
    method CdCallback(i: nat)
      requires Valid() && CanComplete(link, i)
      requires link.pending[i].kind.NCmd? && (link.pending[i].kind.n.ReadVideo? || link.pending[i].kind.n.Stop?)
      modifies this, mutexN
      ensures Valid() && Snapshot() == Callback(old(Snapshot()), i)
    {
      UnlockN();
      link := link.Finish(i, 0, []);
    }

    /** cdGetTocStage2 clips the caller's length by the kind of disc. */
    method GetTocStage2(i: nat)
      requires Valid() && CanComplete(link, i)
      requires link.pending[i].kind.NCmd? && link.pending[i].kind.n.GetToc?
      modifies this, mutexN
      ensures Valid() && Snapshot() == Callback(old(Snapshot()), i)
    {
      var result := if buf[TocReply][0] == 0 then 1 else 0;
      var media := buf[TocReply][1];
      var len := link.pending[i].kind.n.len;
      if media != 0 {
        if len > 2064 {
          len := 2064;
        }
      } else {
        if len > 1024 {
          len := 1024;
        }
      }
      var toc: seq<int> := [];
      if len != 0 {
        toc := buf[TocReply][2..2 + len];
      }
      UnlockN();
      link := link.Finish(i, result, [media, len] + toc);
    }
  }
}
