/** The memory-card globals and the functions that update them, each proved to take the step of McCard. */
module McCardDriver {
  import opened SifRpc
  import opened McCard

  class Driver {
    var counter: nat
    var lastCmd: int
    var mcType: int
    var areas: Areas
    var inUse: bool
    var link: Link<Kind>

    ghost function Snapshot(): State
      reads this
    {
      State(Control(counter, lastCmd, mcType), areas, inUse, link)
    }

    constructor (a: Areas)
      requires Shaped(a)
      ensures PowerOn(Snapshot())
    {
      counter, lastCmd, mcType, areas := 0, 0, -1, a;
      inUse, link := false, Link(0, [], []);
    }

    /** SifBindRpc and SifCallRpc: a packet, then the client, then the transfer. */
    method Send(kind: Kind, sent: seq<int>, wire: Wire) returns (accepted: bool)
      modifies this
      ensures (accepted, Snapshot()) == McCard.Send(Cleared(old(Snapshot()), kind, wire), kind, sent, wire)
    {
      if !wire.packet {
        return false;
      }
      if inUse {
        return false;
      }
      inUse := true;
      if kind.Bind? {
        areas := areas.(server := 0);
      }
      if !wire.sent {
        return false;
      }
      link := link.Accept(kind, sent);
      return true;
    }

    /** sbcall_mcinit and mcInit. */
    method McInit(version: Option<nat>, wire: Wire) returns (rc: int)
      modifies this
      ensures (rc, Snapshot()) == DoInit(old(Snapshot()), version, wire)
    {
      if mcType < 0 {
        if version.None? {
          return -1;
        }
        mcType := if version.value / 256 > 1 then XMC else MC;
      }
      var accepted := true;
      if counter == 0 {
        accepted := Send(Bind, [], wire);
      } else if counter == 1 {
        if mcType == XMC {
          accepted := Send(InitCall, [], wire);
        }
      } else {
        link := link.Answer(Answered, 1);
      }
      return if accepted then 0 else -SIF_RPCE_SENDP;
    }

    /** The common shape of every sbcall_mc* command: claim `lastCmd`, fill the buffer, send. */
    method Command(f: Func, words: seq<int>, wanted: Wanted, wire: Wire) returns (rc: int)
      modifies this
      ensures (rc, Snapshot()) == DoCmd(old(Snapshot()), f, words, wanted, wire)
    {
      if counter != INITIALIZED {
        return -1;
      }
      if lastCmd != 0 {
        return -SIF_RPCE_SENDP;
      }
      lastCmd := Code(f);
      areas := areas.(cmds := areas.cmds[BufferOf(f) := words]);
      if f.GetInfo? {
        areas := areas.(wanted := wanted);
      }
      var accepted := Send(Cmd(f, words, wanted), words, wire);
      if !accepted {
        lastCmd := 0;
        return -SIF_RPCE_SENDP;
      }
      return 0;
    }

    method Receive(i: nat, words: seq<int>)
      requires Shaped(areas) && CanReply(link, i, words)
      modifies this
      ensures Snapshot() == Land(old(Snapshot()), i, words)
    {
      areas := LandIn(areas, link.pending[i].kind, words);
      link := link.Land(i, words);
    }

    /** mcCallback, for every command but get-info and read. */
    method McCallback(i: nat)
      requires Shaped(areas) && CanComplete(link, i) && link.pending[i].kind.Cmd?
      requires !FillsEndParameter(link.pending[i].kind)
      modifies this
      ensures Snapshot() == Callback(old(Snapshot()), i)
    {
      inUse := false;
      lastCmd := 0;
      link := link.Finish(i, areas.rdata[0], []);
    }

    /** mcGetInfoApdx writes through each address that is not NULL. */
    method McGetInfoApdx(i: nat)
      requires Shaped(areas) && CanComplete(link, i)
      requires link.pending[i].kind.Cmd? && link.pending[i].kind.f.GetInfo?
      modifies this
      ensures Snapshot() == Callback(old(Snapshot()), i)
    {
      inUse := false;
      var out: seq<int> := [];
      if areas.wanted.cardType {
        out := out + [areas.endParameter[0]];
      }
      if areas.wanted.free {
        out := out + [areas.endParameter[1]];
      }
      if areas.wanted.format {
        if mcType == MC {
          if areas.endParameter[0] == 0 {
            out := out + [0];
          } else {
            out := out + [1];
          }
        } else if mcType == XMC {
          out := out + [areas.endParameter[36]];
        }
      }
      assert out == Info(mcType, areas.wanted, areas.endParameter);
      lastCmd := 0;
      link := link.Finish(i, areas.rdata[0], out);
    }

    /** mcReadFixAlign hands on the area it copies from. */
    method McReadFixAlign(i: nat)
      requires Shaped(areas) && CanComplete(link, i)
      requires link.pending[i].kind.Cmd? && link.pending[i].kind.f.Read?
      modifies this
      ensures Snapshot() == Callback(old(Snapshot()), i)
    {
      inUse := false;
      var out := areas.endParameter;
      lastCmd := 0;
      link := link.Finish(i, areas.rdata[0], out);
    }

    /** mcInitCallback, with its fall-through from the first case to the second. */
    method InitCompleted(i: nat)
      requires Shaped(areas) && CanComplete(link, i) && !link.pending[i].kind.Cmd?
      modifies this
      ensures Snapshot() == Callback(old(Snapshot()), i)
    {
      inUse := false;
      var result := 0;
      var second := counter == 1;
      if counter == 0 {
        if areas.server == 0 {
          result := -1;
        } else {
          counter := counter + 1;
          second := mcType == MC;
        }
      }
      if second {
        if mcType == XMC && areas.rdata[1] < 0x200 {
          link := link.Finish(i, -120, []);
          return;
        }
        if mcType == XMC && areas.rdata[2] < 0x200 {
          link := link.Finish(i, -121, []);
          return;
        }
        result := if mcType == XMC then areas.rdata[0] else 1;
        lastCmd := 0;
        counter := counter + 1;
      }
      link := link.Finish(i, result, []);
    }
  }
}
