/** The queue of error messages, whose only mark of occupancy is a pointer that is not NULL. */
module ErrorQueue {

  const MAX: nat := 10
  const BUFFER: nat := 128

  /** A message pointer: NULL, some caller's text, or one of the static buffers of error_printf. */
  datatype Pointer = Null | Caller(text: string) | Static(i: nat)

  function Slot(from: nat, k: nat): (slot: nat)
    requires from < MAX && k <= MAX
    ensures slot < MAX && slot == (from + k) % MAX
  {
    if from + k < MAX then from + k else from + k - MAX
  }

  /** What vsnprintf leaves in a buffer. */
  function Clip(text: string): (r: string)
    ensures r <= text && (|text| <= 127 ==> r == text) && (|text| > 127 ==> |r| == 127)
  {
    if |text| < BUFFER then text else text[..BUFFER - 1]
  }

  // ------------------------------------------------------------- the plain queue

  datatype Op = Put(text: string) | Printf(text: string) | Take

  /** What waits, what has been accepted so far and what has been taken so far. */
  datatype History = History(waiting: seq<string>, accepted: seq<string>, taken: seq<string>)

  function Do(h: History, op: Op): History {
    if op.Take? then
      if h.waiting == [] then h else h.(waiting := h.waiting[1..], taken := h.taken + [h.waiting[0]])
    else if |h.waiting| < MAX then
      var text := if op.Printf? then Clip(op.text) else op.text;
      h.(waiting := h.waiting + [text], accepted := h.accepted + [text])
    else h
  }

  function Run(ops: seq<Op>): History {
    if ops == [] then History([], [], []) else Do(Run(ops[..|ops| - 1]), ops[|ops| - 1])
  }

  lemma RunSnoc(ops: seq<Op>, op: Op)
    ensures Run(ops + [op]) == Do(Run(ops), op)
  {
    assert (ops + [op])[..|ops|] == ops;
  }

  /** The texts that a run offers, as they would be shown, in order. */
  function Offered(ops: seq<Op>): seq<string> {
    if ops == [] then []
    else
      var op, before := ops[|ops| - 1], Offered(ops[..|ops| - 1]);
      match op
      case Take => before
      case Put(text) => before + [text]
      case Printf(text) => before + [Clip(text)]
  }

  /** Over any run, what was accepted is what was taken followed by what waits, in order. */
  lemma {:induction false} FirstInFirstOut(ops: seq<Op>)
    ensures var h := Run(ops); h.accepted == h.taken + h.waiting && |h.waiting| <= MAX
  {
    if ops != [] {
      FirstInFirstOut(ops[..|ops| - 1]);
    }
  }

  function Takes(n: nat): (ops: seq<Op>)
    ensures |ops| == n && forall k :: 0 <= k < n ==> ops[k] == Take
  {
    seq(n, _ => Take)
  }

  /** Taking as often as texts wait takes them all. */
  lemma {:induction false} TakesEmpty(ops: seq<Op>, n: nat)
    requires n <= |Run(ops).waiting|
    ensures var h, g := Run(ops), Run(ops + Takes(n));
            && g.accepted == h.accepted && g.taken == h.taken + h.waiting[..n] && g.waiting == h.waiting[n..]
            && (n == |h.waiting| ==> g.taken == g.accepted && g.waiting == [])
    decreases n
  {
    FirstInFirstOut(ops + Takes(n));
    if n == 0 {
      assert ops + Takes(0) == ops;
    } else {
      TakesEmpty(ops, n - 1);
      RunSnoc(ops + Takes(n - 1), Take);
      assert ops + Takes(n) == ops + Takes(n - 1) + [Take];
    }
  }

  /** No run that keeps at most ten texts waiting loses one: all that was offered is taken or waits. */
  lemma {:induction false} NothingLost(ops: seq<Op>)
    requires forall n :: 0 <= n < |ops| && !ops[n].Take? ==> |Run(ops[..n]).waiting| < MAX
    ensures Run(ops).accepted == Offered(ops)
  {
    if ops != [] {
      var n := |ops| - 1;
      forall k | 0 <= k < n && !ops[..n][k].Take? ensures |Run(ops[..n][..k]).waiting| < MAX {
        assert ops[..n][..k] == ops[..k];
      }
      NothingLost(ops[..n]);
    }
  }

  // ------------------------------------------------------------ the ring of pointers

  class Queue {
    const messages: array<Pointer>
    const buffers: array<string>
    var readPos: nat
    var writePos: nat

    /** Every call so far. */
    ghost var ops: seq<Op>

    /** The texts that are waiting, oldest first. */
    ghost function Waiting(): seq<string>
      reads `ops
    {
      Run(ops).waiting
    }

    function Text(p: Pointer): string
      reads buffers
    {
      match p
      case Null => ""
      case Caller(text) => text
      case Static(i) => if i < buffers.Length then buffers[i] else ""
    }

    /** An error_printf text is in the buffer of the slot that points to it. */
    ghost predicate Shaped()
      reads messages
    {
      && messages.Length == MAX && buffers.Length == MAX
      && messages as object != buffers
      && forall i :: 0 <= i < MAX && messages[i].Static? ==> messages[i].i == i
    }

    /** The occupied slots are those from `readPos` on, and hold these texts. */
    ghost predicate Holds(waiting: seq<string>)
      requires messages.Length == MAX
      reads `readPos, `writePos, messages, buffers
    {
      && readPos < MAX && |waiting| <= MAX && writePos == Slot(readPos, |waiting|)
      && forall k :: 0 <= k < MAX ==>
           if k < |waiting| then messages[Slot(readPos, k)] != Null && Text(messages[Slot(readPos, k)]) == waiting[k]
           else messages[Slot(readPos, k)] == Null
    }

    ghost predicate Valid()
      reads this, messages, buffers
    {
      Shaped() && Holds(Waiting())
    }

    constructor ()
      ensures Valid() && ops == [] && fresh(messages) && fresh(buffers)
    {
      messages := new Pointer[MAX](_ => Null);
      buffers := new string[MAX](_ => "");
      readPos, writePos, ops := 0, 0, [];
    }

    /** setErrorMessage on a pointer: dropped when the slot to write is occupied. */
    method Store(p: Pointer, ghost waiting: seq<string>)
      requires Shaped() && Holds(waiting) && p != Null && (p.Static? ==> p.i == writePos)
      modifies `writePos, messages
      ensures Shaped() && Holds(if |waiting| < MAX then waiting + [old(Text(p))] else waiting)
    {
      assert messages[Slot(readPos, if |waiting| < MAX then |waiting| else 0)] == messages[writePos];
      if messages[writePos] == Null {
        messages[writePos] := p;
        writePos := (writePos + 1) % MAX;
      }
    }

    method Enqueue(p: Pointer, ghost op: Op)
      requires Valid() && p != Null && (p.Static? ==> p.i == writePos)
      requires op == Put(Text(p)) || (op.Printf? && Clip(op.text) == Text(p))
      modifies this, messages
      ensures Valid() && ops == old(ops) + [op]
    {
      hide Run, Queue.Holds, Queue.Shaped, Clip;
      RunSnoc(ops, op);
      FirstInFirstOut(ops);
      Store(p, Waiting());
      ops := ops + [op];
    }

    method SetErrorMessage(text: string)
      requires Valid()
      modifies this, messages
      ensures Valid() && ops == old(ops) + [Put(text)]
    {
      Enqueue(Caller(text), Put(text));
    }

    method Advance(ghost waiting: seq<string>)
      requires Shaped() && Holds(waiting)
      modifies `readPos, messages
      ensures Shaped() && Holds(if waiting == [] then [] else waiting[1..])
    {
      assert messages[Slot(readPos, 0)] == messages[readPos];
      if messages[readPos] != Null {
        ghost var from := readPos;
        messages[readPos] := Null;
        readPos := (readPos + 1) % MAX;
        assert forall k :: 0 <= k < MAX - 1 ==> Slot(readPos, k) == Slot(from, k + 1);
        assert Slot(readPos, MAX - 1) == from;
      }
    }

    method GoToNextErrorMessage()
      requires Valid()
      modifies this, messages
      ensures Valid() && ops == old(ops) + [Take]
    {
      hide Run, Queue.Holds, Queue.Shaped;
      RunSnoc(ops, Take);
      Advance(Waiting());
      ops := ops + [Take];
    }

    /** getErrorMessage: the oldest text, if any; the next to be taken, and accepted after those taken. */
    method GetErrorMessage() returns (text: string, any: bool)
      requires Valid()
      ensures any <==> Waiting() != []
      ensures any ==> text == Waiting()[0]
      ensures var h := Run(ops); any ==> |h.taken| < |h.accepted| && text == h.accepted[|h.taken|]
    {
      assert messages[Slot(readPos, 0)] == messages[readPos];
      FirstInFirstOut(ops);
      return Text(messages[readPos]), messages[readPos] != Null;
    }

    /** error_printf with its text formatted: it writes a static buffer only when no waiting message can
        still point there, so every waiting text stays as it was queued. */
    method ErrorPrintf(text: string) returns (ret: int)
      requires Valid()
      modifies this, messages, buffers
      ensures Valid() && ops == old(ops) + [Printf(text)]
      ensures ret == if |old(Waiting())| < MAX then |text| else -1
    {
      ghost var waiting := Waiting();
      assert messages[Slot(readPos, if |waiting| < MAX then |waiting| else 0)] == messages[writePos];
      if messages[writePos] != Null {
        RunSnoc(ops, Printf(text));
        ops := ops + [Printf(text)];
        return -1;
      }
      buffers[writePos] := Clip(text);
      Enqueue(Static(writePos), Printf(text));
      return |text|;
    }
  }
}
