/** Looking for an option on the kernel command line, at a token boundary only. */
module CommandLine {

  predicate Occurs(c: string, o: string, i: int) {
    0 <= i && i + |o| <= |c| && c[i..i + |o|] == o
  }

  /** The option stands at the start or right after a space. */
  predicate AtBoundary(c: string, o: string, i: int) {
    Occurs(c, o, i) && (i == 0 || c[i - 1] == ' ')
  }

  predicate Carries(c: string, o: string) {
    exists i :: 0 <= i <= |c| && AtBoundary(c, o, i)
  }

  /** strstr from an offset: the first occurrence, or -1. */
  function Find(c: string, o: string, from: nat): (p: int)
    requires from <= |c|
    ensures p == -1 || (from <= p <= |c| && Occurs(c, o, p))
    ensures forall i :: from <= i <= |c| && (p == -1 || i < p) ==> !Occurs(c, o, i)
    decreases |c| - from
  {
    if Occurs(c, o, from) then from else if from < |c| then Find(c, o, from + 1) else -1
  }

  /** The search: after a rejected match it goes on behind the whole match. */
  function Search(c: string, o: string, from: nat): bool
    requires from <= |c| && (o == [] ==> from == 0)
    decreases |c| - from
  {
    var p := Find(c, o, from);
    p != -1 && (p == 0 || c[p - 1] == ' ' || Search(c, o, p + |o|))
  }

  /** The option overlaps itself from just after one of its own spaces. */
  predicate SelfOverlaps(o: string) {
    exists k :: 0 < k < |o| && OverlapsAt(o, k)
  }

  predicate OverlapsAt(o: string, k: nat) {
    0 < k < |o| && o[k - 1] == ' ' && o[k..] == o[..|o| - k]
  }

  lemma FindFacts(c: string, o: string, from: nat)
    requires from <= |c|
    ensures var p := Find(c, o, from); (o == [] ==> p == from) && (p == -1 || (from <= p && Occurs(c, o, p)))
  {}

  /** What the search finds is there. */
  lemma {:induction false} SearchSound(c: string, o: string, from: nat)
    requires from <= |c| && (o == [] ==> from == 0) && Search(c, o, from)
    ensures Carries(c, o)
    decreases |c| - from
  {
    hide Find;
    var p := Find(c, o, from);
    FindFacts(c, o, from);
    if p == 0 || c[p - 1] == ' ' {
      assert AtBoundary(c, o, p);
    } else {
      SearchSound(c, o, p + |o|);
    }
  }

  /** A boundary occurrence that starts inside a rejected match is a self-overlap. */
  lemma InsideMatch(c: string, o: string, p: nat, i: nat)
    requires Occurs(c, o, p) && AtBoundary(c, o, i) && p < i < p + |o|
    ensures OverlapsAt(o, i - p)
  {
    var k := i - p;
    var hit := c[p..p + |o|];
    assert hit[k - 1] == c[i - 1];
    assert hit[k..] == c[i..p + |o|];
    assert c[i..i + |o|][..|o| - k] == c[i..p + |o|];
  }

  /** Without such an overlap nothing is missed. */
  lemma {:induction false} SearchComplete(c: string, o: string, from: nat, i: nat)
    requires from <= i && AtBoundary(c, o, i) && (o == [] ==> from == 0)
    requires !SelfOverlaps(o)
    ensures Search(c, o, from)
    decreases |c| - from
  {
    var p := Find(c, o, from);
    if p != 0 && c[p - 1] != ' ' {
      assert p < i;
      if i < p + |o| {
        InsideMatch(c, o, p, i);
        assert false;
      }
      SearchComplete(c, o, p + |o|, i);
    }
  }

  /** A command line on which a self-overlapping option is missed. */
  function Trap(o: string, k: nat): string
    requires 0 < k < |o|
  {
    (if o[0] == 'x' then "y" else "x") + o[..k] + o
  }

  lemma TrapShape(o: string, k: nat)
    requires OverlapsAt(o, k) && k < |o|
    ensures var c := Trap(o, k);
            |c| == 1 + k + |o| && c[0] != o[0] && c[0] != ' ' && c[k] == ' ' && c[1 + k..] == o && c[1..1 + |o|] == o
  {
    var c, n := Trap(o, k), |o|;
    assert o[..k] + o[..n - k] == o by { assert o[..k] + o[k..] == o; }
    assert c[1..1 + n] == o[..k] + o[..n - k];
  }

  lemma TrapMisses(o: string, k: nat)
    requires OverlapsAt(o, k) && k < |o|
    ensures Carries(Trap(o, k), o) && !Search(Trap(o, k), o, 0)
  {
    hide Trap;
    var c, n := Trap(o, k), |o|;
    TrapShape(o, k);
    assert AtBoundary(c, o, 1 + k);
    assert !Occurs(c, o, 0) by {
      assert c[0..n][0] != o[0];
    }
    assert Occurs(c, o, 1);
    assert Find(c, o, 0) == 1;
    NothingFits(c, o, 1 + n);
  }

  lemma NothingFits(c: string, o: string, from: nat)
    requires from <= |c| < from + |o|
    ensures !Search(c, o, from)
  {}

  /** Every command line is answered rightly exactly when the option does not overlap itself after a space. */
  lemma RightIffNoOverlap(o: string)
    ensures (forall c: string :: Search(c, o, 0) <==> Carries(c, o)) <==> !SelfOverlaps(o)
  {
    if SelfOverlaps(o) {
      var k: nat :| 0 < k < |o| && OverlapsAt(o, k);
      TrapMisses(o, k);
      assert !(Search(Trap(o, k), o, 0) <==> Carries(Trap(o, k), o));
    } else {
      forall c: string ensures Search(c, o, 0) <==> Carries(c, o) {
        if Search(c, o, 0) {
          SearchSound(c, o, 0);
        }
        if Carries(c, o) {
          var i: nat :| 0 <= i <= |c| && AtBoundary(c, o, i);
          SearchComplete(c, o, 0, i);
        }
      }
    }
  }

  /** In particular for every option without a space, such as the "ip=" the loader asks for. */
  lemma RightWithoutSpaces(c: string, o: string)
    requires ' ' !in o
    ensures Search(c, o, 0) <==> Carries(c, o)
  {
    RightIffNoOverlap(o);
  }

  method HasCommandlineOption(cmdline: string, option: string) returns (found: bool)
    ensures found == Search(cmdline, option, 0)
    ensures ' ' !in option ==> (found <==> Carries(cmdline, option))
  {
    hide Find, Carries, AtBoundary;
    var from := 0;
    var p := Find(cmdline, option, from);
    FindFacts(cmdline, option, from);
    while p != -1
      invariant from <= |cmdline| && (option == [] ==> from == 0)
      invariant p == Find(cmdline, option, from) && (p == -1 || (from <= p && p + |option| <= |cmdline|))
      invariant Search(cmdline, option, 0) == Search(cmdline, option, from)
      decreases |cmdline| - from, p != -1
    {
      if p == 0 || cmdline[p - 1] == ' ' {
        found := true;
        if ' ' !in option { RightWithoutSpaces(cmdline, option); }
        return;
      }
      from := p + |option|;
      p := Find(cmdline, option, from);
      FindFacts(cmdline, option, from);
    }
    found := false;
    if ' ' !in option { RightWithoutSpaces(cmdline, option); }
  }
}
