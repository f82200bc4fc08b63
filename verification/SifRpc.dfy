/**
 * The environment of the SBIOS: a no-wait RPC is either refused, with no callback, or accepted; an
 * accepted one has its reply written by the IOP and, in a later step, its callback run once.
 */
module SifRpc {

  const SIF_RPCE_GETP := 1
  const SIF_RPCE_SENDP := 2

  datatype Option<+T> = None | Some(value: T)

  /** An accepted request: what was in its command buffer, and its reply once that has landed. */
  datatype Request<K> = Request(id: nat, kind: K, sent: seq<int>, reply: Option<seq<int>>)

  /** One call of a caller's end function. */
  datatype EndCall<K> = EndCall(id: nat, kind: K, reply: seq<int>, result: int, out: seq<int>)

  /** Requests are numbered in the order they were accepted. */
  datatype Link<K> = Link(issued: nat, pending: seq<Request<K>>, ended: seq<EndCall<K>>) {

    function Accept(kind: K, sent: seq<int>): Link<K> {
      Link(issued + 1, pending + [Request(issued, kind, sent, None)], ended)
    }

    /** A call answered on the spot, without an RPC. */
    function Answer(kind: K, result: int): Link<K> {
      Link(issued + 1, pending, ended + [EndCall(issued, kind, [], result, [])])
    }

    function Land(i: nat, words: seq<int>): Link<K>
      requires i < |pending|
    {
      this.(pending := pending[i := pending[i].(reply := Some(words))])
    }

    function Finish(i: nat, result: int, out: seq<int>): Link<K>
      requires i < |pending| && pending[i].reply.Some?
    {
      var r := pending[i];
      Link(issued, Remove(pending, i), ended + [EndCall(r.id, r.kind, r.reply.value, result, out)])
    }

    /** Every accepted request is pending or ended, exactly once. */
    ghost predicate Conserved() {
      multiset(Ids(pending)) + multiset(EndIds(ended)) == multiset(Range(issued))
    }
  }

  function Remove<T>(s: seq<T>, i: nat): seq<T>
    requires i < |s|
  {
    s[..i] + s[i + 1..]
  }

  function Range(n: nat): (r: seq<nat>)
    ensures |r| == n && forall i :: 0 <= i < n ==> r[i] == i
  {
    seq(n, i requires 0 <= i => i)
  }

  function Ids<K>(p: seq<Request<K>>): (ids: seq<nat>)
    ensures |ids| == |p| && forall i :: 0 <= i < |p| ==> ids[i] == p[i].id
  {
    seq(|p|, i requires 0 <= i < |p| => p[i].id)
  }

  function EndIds<K>(e: seq<EndCall<K>>): (ids: seq<nat>)
    ensures |ids| == |e| && forall i :: 0 <= i < |e| ==> ids[i] == e[i].id
  {
    seq(|e|, i requires 0 <= i < |e| => e[i].id)
  }

  lemma AcceptConserves<K>(link: Link<K>, kind: K, sent: seq<int>)
    requires link.Conserved()
    ensures link.Accept(kind, sent).Conserved()
  {
    var after := link.Accept(kind, sent);
    assert Ids(after.pending) == Ids(link.pending) + [link.issued];
    assert Range(link.issued + 1) == Range(link.issued) + [link.issued];
  }

  lemma AnswerConserves<K>(link: Link<K>, kind: K, result: int)
    requires link.Conserved()
    ensures link.Answer(kind, result).Conserved()
  {
    var after := link.Answer(kind, result);
    assert EndIds(after.ended) == EndIds(link.ended) + [link.issued];
    assert Range(link.issued + 1) == Range(link.issued) + [link.issued];
  }

  lemma LandConserves<K>(link: Link<K>, i: nat, words: seq<int>)
    requires i < |link.pending| && link.Conserved()
    ensures link.Land(i, words).Conserved()
  {
    assert Ids(link.Land(i, words).pending) == Ids(link.pending);
  }

  lemma FinishConserves<K>(link: Link<K>, i: nat, result: int, out: seq<int>)
    requires i < |link.pending| && link.pending[i].reply.Some? && link.Conserved()
    ensures link.Finish(i, result, out).Conserved()
  {
    var after := link.Finish(i, result, out);
    var ids := Ids(link.pending);
    assert ids == ids[..i] + [ids[i]] + ids[i + 1..];
    assert Ids(after.pending) == ids[..i] + ids[i + 1..];
    assert EndIds(after.ended) == EndIds(link.ended) + [ids[i]];
  }

  /** In a conserving link no request ends twice, none both waits and has ended, and none is lost. */
  lemma ExactlyOnce<K>(link: Link<K>, id: nat)
    requires link.Conserved()
    ensures multiset(Ids(link.pending))[id] + multiset(EndIds(link.ended))[id] == if id < link.issued then 1 else 0
  {
    RangeCount(link.issued, id);
  }

  lemma {:induction false} RangeCount(n: nat, id: nat)
    ensures multiset(Range(n))[id] == if id < n then 1 else 0
  {
    if n > 0 {
      RangeCount(n - 1, id);
      assert Range(n) == Range(n - 1) + [n - 1];
    }
  }

  // --------------------------------------------------------------------- a client

  /** What a request meets: whether the packet table has room, and whether SifSendCmd then succeeds. */
  datatype Wire = Wire(packet: bool, sent: bool)

  /** A request takes a client that is not in use, and keeps it even if sending the packet then fails;
      the client is given back only when the reply arrives. */
  predicate Takes(inUse: bool, w: Wire) {
    w.packet && !inUse
  }

  // ------------------------------------------------------------ counting requests

  function Count<K>(p: seq<Request<K>>, inClass: K -> bool): nat {
    if p == [] then 0 else Count(p[..|p| - 1], inClass) + (if inClass(p[|p| - 1].kind) then 1 else 0)
  }

  lemma CountAppend<K>(p: seq<Request<K>>, r: Request<K>, inClass: K -> bool)
    ensures Count(p + [r], inClass) == Count(p, inClass) + (if inClass(r.kind) then 1 else 0)
  {
    assert (p + [r])[..|p|] == p;
  }

  lemma {:induction false} CountRemove<K>(p: seq<Request<K>>, i: nat, inClass: K -> bool)
    requires i < |p|
    ensures Count(p, inClass) == Count(Remove(p, i), inClass) + (if inClass(p[i].kind) then 1 else 0)
  {
    var last := |p| - 1;
    if i < last {
      CountRemove(p[..last], i, inClass);
      assert Remove(p, i) == Remove(p[..last], i) + [p[last]];
      CountAppend(Remove(p[..last], i), p[last], inClass);
    } else {
      assert Remove(p, i) == p[..last];
    }
  }

  lemma {:induction false} CountSameKinds<K>(p: seq<Request<K>>, q: seq<Request<K>>, inClass: K -> bool)
    requires |p| == |q| && forall i :: 0 <= i < |p| ==> p[i].kind == q[i].kind
    ensures Count(p, inClass) == Count(q, inClass)
  {
    if p != [] {
      CountSameKinds(p[..|p| - 1], q[..|p| - 1], inClass);
    }
  }

  /** A request in the class is counted; two of them count twice. */
  lemma {:induction false} CountWitness<K>(p: seq<Request<K>>, i: nat, inClass: K -> bool)
    requires i < |p| && inClass(p[i].kind)
    ensures Count(p, inClass) >= 1
    ensures forall j :: 0 <= j < |p| && j != i && inClass(p[j].kind) ==> Count(p, inClass) >= 2
  {
    CountRemove(p, i, inClass);
    forall j | 0 <= j < |p| && j != i && inClass(p[j].kind) ensures Count(p, inClass) >= 2 {
      var rest := Remove(p, i);
      var k := if j < i then j else j - 1;
      assert rest[k] == p[j];
      CountRemove(rest, k, inClass);
    }
  }

  lemma NoneInClass<K>(p: seq<Request<K>>, inClass: K -> bool)
    requires Count(p, inClass) == 0
    ensures forall i :: 0 <= i < |p| ==> !inClass(p[i].kind)
  {
    forall i | 0 <= i < |p| && inClass(p[i].kind) ensures false {
      CountWitness(p, i, inClass);
    }
  }

  lemma {:induction false} CountSome<K>(p: seq<Request<K>>, inClass: K -> bool)
    requires Count(p, inClass) > 0
    ensures exists i :: 0 <= i < |p| && inClass(p[i].kind)
  {
    var last := |p| - 1;
    if !inClass(p[last].kind) {
      CountSome(p[..last], inClass);
      var i :| 0 <= i < last && inClass(p[..last][i].kind);
      assert inClass(p[i].kind);
    }
  }

  // -------------------------------------------------------------- shared buffers

  /** Overwrite the front of a buffer, as a DMA transfer or a `memcpy` into it does. */
  function Overwrite(buffer: seq<int>, words: seq<int>): (b: seq<int>)
    requires |words| <= |buffer|
    ensures |b| == |buffer| && b[..|words|] == words
  {
    words + buffer[|words|..]
  }
}
