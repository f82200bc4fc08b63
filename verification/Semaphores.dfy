/** The kernel's 32 semaphores, allocated from a free list threaded through their array. */
module Semaphores {

  const NUMBER: nat := 32

  /** The caller's ee_sema_t. */
  datatype Attrs = Attrs(maxCount: int, waitThreads: int, attr: nat, option: nat)
  datatype Params = Params(initCount: int, attrs: Attrs)

  // --------------------------------------------------------------- the plain allocator

  /** The counts, the attributes each was last created with, and the free ids, next one first. */
  datatype Table = Table(counts: seq<int>, attrs: seq<Attrs>, free: seq<nat>)

  predicate Shaped(t: Table) {
    && |t.counts| == NUMBER && |t.attrs| == NUMBER
    && (forall i :: 0 <= i < |t.free| ==> t.free[i] < NUMBER)
  }

  predicate NoDuplicates(s: seq<nat>) {
    forall i, j :: 0 <= i < j < |s| ==> s[i] != s[j]
  }

  function Create(t: Table, p: Params): (Table, int)
    requires Shaped(t)
  {
    if p.initCount < 0 || t.free == [] then (t, -1)
    else
      var id: int := t.free[0];
      (Table(t.counts[id := p.initCount], t.attrs[id := p.attrs], t.free[1..]), id)
  }

  function Delete(t: Table, id: int): (Table, int) {
    if id < 0 || id >= NUMBER then (t, -1)
    else
      var slot: nat := id;
      if slot in t.free then (t, -1) else (t.(free := [slot] + t.free), id)
  }

  function Wait(t: Table, id: nat): (Table, int)
    requires Shaped(t)
  {
    if id >= NUMBER || t.counts[id] < 0 then (t, -1)
    else if t.counts[id] > 0 then (t.(counts := t.counts[id := t.counts[id] - 1]), id as int)
    else (t, -2)
  }

  function Signal(t: Table, id: nat): (Table, int)
    requires Shaped(t)
  {
    if id >= NUMBER || t.counts[id] < 0 then (t, -1) else (t.(counts := t.counts[id := t.counts[id] + 1]), 0)
  }

  datatype Op = OpCreate(p: Params) | OpDelete(id: int) | OpWait(sid: nat) | OpSignal(sid: nat)

  /** A call and what it returned. */
  datatype Event = Event(op: Op, rc: int)

  function Do(t: Table, op: Op): (Table, int)
    requires Shaped(t)
  {
    match op
    case OpCreate(p) => Create(t, p)
    case OpDelete(id) => Delete(t, id)
    case OpWait(id) => Wait(t, id)
    case OpSignal(id) => Signal(t, id)
  }

  predicate Inv(t: Table) {
    Shaped(t) && NoDuplicates(t.free) && forall i :: 0 <= i < NUMBER ==> t.counts[i] >= 0
  }

  lemma DoKeeps(t: Table, op: Op)
    requires Inv(t)
    ensures Inv(Do(t, op).0)
  {}

  function Run(t: Table, ops: seq<Op>): (Table, seq<Event>)
    requires Inv(t)
    ensures Inv(Run(t, ops).0)
  {
    if ops == [] then (t, [])
    else
      var n := |ops| - 1;
      var (before, events) := Run(t, ops[..n]);
      DoKeeps(before, ops[n]);
      var (after, rc) := Do(before, ops[n]);
      (after, events + [Event(ops[n], rc)])
  }

  function Range(n: nat): (r: seq<nat>)
    ensures |r| == n && forall i :: 0 <= i < n ==> r[i] == i
  {
    seq(n, i requires 0 <= i => i)
  }

  function Ids(s: seq<nat>): set<nat> {
    set id | id in s
  }

  /** The ids that are not free. */
  function Live(t: Table): set<nat> {
    set id | id in Range(NUMBER) && id !in t.free
  }

  lemma IdInRange(id: nat)
    ensures id in Range(NUMBER) <==> id < NUMBER
  {
    if id < NUMBER {
      assert Range(NUMBER)[id] == id;
    }
  }

  lemma {:induction false} NoDuplicatesSize(s: seq<nat>)
    requires NoDuplicates(s)
    ensures |Ids(s)| == |s|
  {
    if s != [] {
      var last := |s| - 1;
      NoDuplicatesSize(s[..last]);
      assert Ids(s) == Ids(s[..last]) + {s[last]};
      assert s[last] !in s[..last];
    }
  }

  /** Live plus free is always 32. */
  lemma LivePlusFree(t: Table)
    requires Inv(t)
    ensures |Live(t)| + |t.free| == NUMBER
  {
    NoDuplicatesSize(t.free);
    NoDuplicatesSize(Range(NUMBER));
    var all := Ids(Range(NUMBER));
    forall id | id in t.free ensures id in all {
      IdInRange(id);
    }
    assert Ids(t.free) <= all;
    assert |all| == |Live(t)| + |Ids(t.free)| by {
      assert all == Live(t) + Ids(t.free) && Live(t) !! Ids(t.free);
    }
  }

  /** Create hands out an id that was not live and makes it live; it fails exactly when asked for a
      negative count or when all 32 are live. */
  lemma CreateIsFresh(t: Table, p: Params)
    requires Inv(t)
    ensures var (t', id) := Create(t, p);
            if p.initCount < 0 || |Live(t)| == NUMBER then id == -1 && t' == t
            else
              && id >= 0 && id !in Live(t) && Live(t') == Live(t) + {id}
              && t'.counts == t.counts[id := p.initCount] && t'.attrs == t.attrs[id := p.attrs]
  {
    LivePlusFree(t);
    var (t', id) := Create(t, p);
    if p.initCount >= 0 && t.free != [] {
      IdInRange(t.free[0]);
      assert t.free == [t.free[0]] + t.free[1..];
      assert t.free[0] !in t.free[1..];
      forall x: nat ensures x in Live(t') <==> x in Live(t) + {id} {}
    }
  }

  /** Deleting a live id is undone by the next create; deleting any other changes nothing. */
  lemma DeleteThenCreate(t: Table, id: int, p: Params)
    requires Inv(t)
    ensures var (t', rc) := Delete(t, id);
            if id < 0 || id !in Live(t) then rc == -1 && t' == t
            else
              && rc == id && Live(t') == Live(t) - {id} && t'.counts == t.counts && t'.attrs == t.attrs
              && (p.initCount >= 0 ==> Create(t', p).1 == id && Create(t', p).0.free == t.free)
  {
    var t' := Delete(t, id).0;
    if 0 <= id { IdInRange(id); }
    if 0 <= id && id in Live(t) {
      assert t'.free[1..] == t.free;
      forall x: nat ensures x in Live(t') <==> x in Live(t) - {id} {}
    }
  }

  /** A signal on any of the 32 ids returns 0 and raises that count by one, and that alone. */
  lemma SignalRaises(t: Table, id: nat)
    requires Inv(t)
    ensures var (t', rc) := Signal(t, id);
            && (rc == 0 <==> id < NUMBER) && (id >= NUMBER ==> rc == -1 && t' == t)
            && |t'.counts| == NUMBER && t'.free == t.free && t'.attrs == t.attrs
            && forall k :: 0 <= k < NUMBER ==> t'.counts[k] == t.counts[k] + (if k == id then 1 else 0)
  {}

  /** A wait on a positive count returns the id and lowers that count by one, and that alone; on zero it
      returns -2 and changes nothing. */
  lemma WaitTakes(t: Table, id: nat)
    requires Inv(t)
    ensures var (t', rc) := Wait(t, id);
            && (rc == id <==> id < NUMBER && t.counts[id] > 0)
            && (rc == -2 <==> id < NUMBER && t.counts[id] == 0) && (rc == -1 <==> id >= NUMBER)
            && |t'.counts| == NUMBER && t'.free == t.free && t'.attrs == t.attrs
            && forall k :: 0 <= k < NUMBER ==> t'.counts[k] == t.counts[k] - (if k == id && t.counts[k] > 0 then 1 else 0)
  {}

  /** So after a signal a wait on the same id succeeds, and undoes it. */
  lemma SignalThenWait(t: Table, id: nat)
    requires Inv(t) && id < NUMBER
    ensures var t' := Signal(t, id).0; Inv(t') && Wait(t', id) == (t, id as int)
  {
    var c := t.counts[id];
    assert t.counts[id := c + 1][id := c] == t.counts;
    assert Signal(t, id).0.counts[id] == c + 1;
  }

  /** What the history says the count of `id` should be: the initial count of its last creation, plus the
      signals and minus the successful waits since. */
  function Balance(events: seq<Event>, id: nat): int {
    if events == [] then 0
    else
      var before := Balance(events[..|events| - 1], id);
      var e := events[|events| - 1];
      match e.op
      case OpCreate(p) => if e.rc == id then p.initCount else before
      case OpDelete(_) => before
      case OpWait(sid) => if sid == id && e.rc == id then before - 1 else before
      case OpSignal(sid) => if sid == id then before + 1 else before
  }

  /** Over any sequence of calls from a fresh table, every count is its balance and never negative. */
  lemma {:induction false} CountIsBalance(t: Table, ops: seq<Op>, id: nat)
    requires Inv(t) && id < NUMBER && t.counts[id] == 0
    ensures var (after, events) := Run(t, ops); after.counts[id] == Balance(events, id) >= 0
  {
    if ops != [] {
      var n := |ops| - 1;
      CountIsBalance(t, ops[..n], id);
      var (before, events) := Run(t, ops[..n]);
      var rc := Do(before, ops[n]).1;
      assert (events + [Event(ops[n], rc)])[..|events|] == events;
    }
  }

  lemma PopFacts(s: seq<nat>)
    requires NoDuplicates(s) && s != []
    ensures NoDuplicates(s[1..]) && s[0] !in s[1..]
    ensures forall x :: x in s <==> x == s[0] || x in s[1..]
  {
    assert s == [s[0]] + s[1..];
  }

  lemma RangeIsFull()
    ensures NoDuplicates(Range(NUMBER)) && forall id: nat :: id < NUMBER ==> id in Range(NUMBER)
  {
    forall id: nat | id < NUMBER ensures id in Range(NUMBER) { IdInRange(id); }
  }

  // ---------------------------------------------------------------- the linked array

  /** One slot of semaphoreArray; `next` is an index, or -1 for NULL. */
  datatype Sema = Sema(count: int, attrs: Attrs, next: int, index: int, isFree: bool)

  class Kernel {
    const semas: array<Sema>
    var head: int

    /** The ids on the list from the head. */
    ghost var free: seq<nat>

    /** The list holds each free slot once, in order, and nothing else; so it is acyclic. */
    ghost predicate Valid()
      reads this, semas
      ensures Valid() ==> semas.Length == NUMBER
    {
      && semas.Length == NUMBER
      && NoDuplicates(free) && (forall i :: 0 <= i < |free| ==> free[i] < NUMBER)
      && head == Next(0)
      && (forall i :: 0 <= i < |free| ==> semas[free[i]].next == Next(i + 1))
      && (forall id :: 0 <= id < NUMBER ==> semas[id].index == id)
      && (forall id: nat :: id < NUMBER ==> (semas[id].isFree <==> id in free))
    }

    ghost function Next(i: nat): int
      reads this
    {
      if i < |free| then free[i] else -1
    }

    ghost function View(): Table
      requires semas.Length == NUMBER
      reads this, semas
    {
      Table(seq(NUMBER, i requires 0 <= i < NUMBER reads semas => semas[i].count),
            seq(NUMBER, i requires 0 <= i < NUMBER reads semas => semas[i].attrs),
            free)
    }

    /** The array is static storage, so all its counts start at zero. */
    constructor (nothing: Attrs)
      ensures Valid() && fresh(semas) && View().free == Range(NUMBER)
      ensures Inv(View()) && forall id :: 0 <= id < NUMBER ==> View().counts[id] == 0
    {
      semas := new Sema[NUMBER](_ => Sema(0, nothing, -1, 0, false));
      head, free := -1, [];
      new;
      InitSemaphores();
    }

    method InitSemaphores()
      requires semas.Length == NUMBER
      modifies this, semas
      ensures Valid() && View() == old(View()).(free := Range(NUMBER))
    {
      hide NoDuplicates;
      head := 0;
      for i := 0 to NUMBER - 1
        invariant head == 0
        invariant forall k :: 0 <= k < i ==> semas[k].next == k + 1 && semas[k].index == k && semas[k].isFree
        invariant forall k :: 0 <= k < NUMBER ==> semas[k].count == old(semas[k].count) && semas[k].attrs == old(semas[k].attrs)
      {
        semas[i] := semas[i].(next := i + 1, index := i, isFree := true);
      }
      semas[NUMBER - 1] := semas[NUMBER - 1].(next := -1, index := NUMBER - 1, isFree := true);
      free := Range(NUMBER);
      RangeIsFull();
      assert View().counts == old(View()).counts && View().attrs == old(View()).attrs;
    }

    /** Take the first slot off the list. */
    method Unlink() returns (s: int)
      requires Valid() && head != -1
      modifies this, semas
      ensures Valid() && old(free) != [] && s == old(free)[0]
      ensures View() == old(View()).(free := old(free)[1..])
    {
      hide NoDuplicates;
      PopFacts(free);
      s := head;
      head := semas[s].next;
      semas[s] := semas[s].(isFree := false, next := -1);
      free := free[1..];
      assert View().counts == old(View()).counts && View().attrs == old(View()).attrs;
    }

    method Fill(s: nat, count: int, attrs: Attrs) returns (index: int)
      requires Valid() && s < NUMBER
      modifies semas
      ensures Valid() && index == s
      ensures View() == Table(old(View()).counts[s := count], old(View()).attrs[s := attrs], free)
    {
      hide NoDuplicates;
      semas[s] := semas[s].(count := count, attrs := attrs);
      assert View().counts == old(View()).counts[s := count];
      assert View().attrs == old(View()).attrs[s := attrs];
      index := semas[s].index;
    }

    method CreateSema(p: Params) returns (rc: int)
      requires Valid()
      modifies this, semas
      ensures Valid() && (View(), rc) == Create(old(View()), p)
    {
      if p.initCount < 0 {
        return -1;
      }
      if head == -1 {
        return -1;
      }
      var s := Unlink();
      rc := Fill(s, p.initCount, p.attrs);
    }

    method DeleteSema(id: int) returns (rc: int)
      requires Valid()
      modifies this, semas
      ensures Valid() && (View(), rc) == Delete(old(View()), id)
    {
      if id >= NUMBER {
        return -1;
      }
      if id < 0 {
        return -1;
      }
      if semas[id].isFree {
        return -1;
      }
      ghost var slot: nat := id;
      semas[id] := semas[id].(next := head, isFree := true);
      head := id;
      free := [slot] + free;
      assert View().counts == old(View()).counts && View().attrs == old(View()).attrs;
      return id;
    }

    method SetCount(sid: nat, count: int)
      requires Valid() && sid < NUMBER
      modifies semas
      ensures Valid() && View() == old(View()).(counts := old(View()).counts[sid := count])
    {
      hide NoDuplicates;
      semas[sid] := semas[sid].(count := count);
      assert View().counts == old(View()).counts[sid := count];
      assert View().attrs == old(View()).attrs;
    }

    method GetCount(sid: nat) returns (count: int)
      requires Valid() && sid < NUMBER
      ensures count == View().counts[sid]
    {
      count := semas[sid].count;
    }

    method WaitSema(sid: nat) returns (rc: int)
      requires Valid()
      modifies semas
      ensures Valid() && (View(), rc) == Wait(old(View()), sid)
    {
      hide Kernel.Valid, Kernel.View;
      if sid >= NUMBER {
        return -1;
      }
      var count := GetCount(sid);
      if count < 0 {
        return -1;
      }
      if count > 0 {
        SetCount(sid, count - 1);
        return sid;
      }
      return -2;
    }

    method SignalSema(sid: nat) returns (rc: int)
      requires Valid()
      modifies semas
      ensures Valid() && (View(), rc) == Signal(old(View()), sid)
    {
      hide Kernel.Valid, Kernel.View;
      if sid >= NUMBER {
        return -1;
      }
      var count := GetCount(sid);
      if count < 0 {
        return -1;
      }
      SetCount(sid, count + 1);
      return 0;
    }
  }
}
