/** The circular, intrusive, doubly linked list.  The ring through an entry is the sequence
    of entries met by following `next` once around. */
module List {

  class Entry {
    var prev: Entry
    var next: Entry

    constructor ()
      ensures prev == this && next == this
    {
      prev, next := this, this;
    }
  }

  /** Neighbours in `c` are linked in both directions. */
  ghost predicate Chain(c: seq<Entry>)
    reads c
  {
    && (forall k {:trigger c[k].next} | 0 <= k < |c| - 1 :: c[k].next == c[k + 1])
    && (forall k {:trigger c[k].prev} | 0 < k < |c| :: c[k].prev == c[k - 1])
  }

  ghost predicate Distinct(s: seq<Entry>) {
    forall i, j | 0 <= i < j < |s| :: s[i] != s[j]
  }

  ghost predicate IsRing(ring: seq<Entry>)
    reads ring
  {
    |ring| > 0 && Distinct(ring) && Chain(ring + [ring[0]])
  }

  lemma RingLinks(ring: seq<Entry>, i: nat)
    requires IsRing(ring) && i < |ring|
    ensures ring[i].next == ring[if i + 1 == |ring| then 0 else i + 1]
    ensures ring[i].prev == ring[if i == 0 then |ring| - 1 else i - 1]
  {
    var c := ring + [ring[0]];
    assert c[i].next == c[i + 1] && c[i + 1].prev == c[i];
    assert c[if i == 0 then |ring| else i].prev == ring[if i == 0 then |ring| - 1 else i - 1];
  }

  /** Reading the same ring from another of its entries. */
  lemma RingRotates(a: seq<Entry>, b: seq<Entry>)
    requires IsRing(a + b)
    ensures IsRing(b + a)
  {
    var r, s := a + b, b + a;
    if a == [] || b == [] {
      assert r == s;
    } else {
      assert forall i | 0 <= i < |s| :: s[i] == r[if i < |b| then i + |a| else i - |b|];
      var c := s + [s[0]];
      forall k | 0 <= k < |s|
        ensures c[k].next == c[k + 1] && c[k + 1].prev == c[k]
      {
        var i := if k < |b| then k + |a| else k - |b|;
        RingLinks(r, i);
        RingLinks(r, if i + 1 == |r| then 0 else i + 1);
      }
    }
  }

  /** The ring is determined by the pointers and the entry it is read from. */
  lemma RingIsUnique(r: seq<Entry>, s: seq<Entry>)
    requires IsRing(r) && IsRing(s) && r[0] == s[0]
    ensures r == s
  {
    if |r| <= |s| {
      PrefixOfRing(r, s);
    } else {
      PrefixOfRing(s, r);
    }
  }

  lemma PrefixOfRing(r: seq<Entry>, s: seq<Entry>)
    requires IsRing(r) && IsRing(s) && r[0] == s[0] && |r| <= |s|
    ensures r == s
  {
    var n := 1;
    while n < |r|
      invariant 1 <= n <= |r| && forall i | 0 <= i < n :: r[i] == s[i]
    {
      RingLinks(r, n - 1);
      RingLinks(s, n - 1);
      n := n + 1;
    }
    RingLinks(r, n - 1);
    RingLinks(s, n - 1);
  }

  // ----- Operations

  method Init(elm: Entry)
    modifies elm
    ensures IsRing([elm])
  {
    elm.prev, elm.next := elm, elm;
  }

  /** `prev` and `next` are consecutive: entries j - 1 and j of the ring, where the entry
      behind the last is the first again.  An entry that is a ring by itself is its own
      neighbour and may be put where it is. */
  method AddBetween(elm: Entry, prev: Entry, next: Entry, ghost ring: seq<Entry>, ghost j: nat)
    requires IsRing(ring) && 1 <= j <= |ring| && (elm !in ring || ring == [elm])
    requires prev == ring[j - 1] && next == (ring + [ring[0]])[j]
    modifies elm, prev`next, next`prev
    ensures prev.next == elm && next.prev == elm && elm.next == next && elm.prev == prev
    ensures IsRing(if ring == [elm] then ring else ring[..j] + [elm] + ring[j..])
  {
    next.prev := elm;
    prev.next := elm;
    elm.next := next;
    elm.prev := prev;
    if elm !in ring {
      ghost var c, s := ring + [ring[0]], ring[..j] + [elm] + ring[j..];
      ghost var d := s + [s[0]];
      assert d == c[..j] + [elm] + c[j..];
      forall k | 0 <= k < |s|
        ensures d[k].next == d[k + 1] && d[k + 1].prev == d[k]
      {
        if k > j {
          assert d[k] == c[k - 1] && d[k + 1] == c[k];
        }
      }
    }
  }

  /** Makes the entries around position j point to each other; only a ring of one entry is
      read from the entry itself. */
  method Unlink(prev: Entry, next: Entry, ghost ring: seq<Entry>, ghost j: nat)
    requires IsRing(ring) && j < |ring| && (j == 0 <==> |ring| == 1)
    requires prev == ring[if j == 0 then 0 else j - 1] && next == (ring + [ring[0]])[j + 1]
    modifies prev`next, next`prev
    ensures prev.next == next && next.prev == prev
    ensures IsRing(if |ring| == 1 then ring else ring[..j] + ring[j + 1..])
  {
    prev.next := next;
    next.prev := prev;
    if j > 0 {
      ghost var c, s := ring + [ring[0]], ring[..j] + ring[j + 1..];
      ghost var d := s + [s[0]];
      assert d == c[..j] + c[j + 1..];
      forall k | 0 <= k < |s|
        ensures d[k].next == d[k + 1] && d[k + 1].prev == d[k]
      {
        if k >= j {
          assert d[k] == c[k + 1] && d[k + 1] == c[k + 2];
        }
      }
    }
  }

  method AddAfter(listelm: Entry, elm: Entry, ghost ring: seq<Entry>, ghost i: nat)
    requires IsRing(ring) && i < |ring| && ring[i] == listelm && elm !in ring
    modifies elm, listelm`next, listelm.next`prev
    ensures IsRing(ring[..i + 1] + [elm] + ring[i + 1..])
  {
    RingLinks(ring, i);
    AddBetween(elm, listelm, listelm.next, ring, i + 1);
  }

  method Add(listelm: Entry, elm: Entry, ghost ring: seq<Entry>, ghost i: nat)
    requires IsRing(ring) && i < |ring| && ring[i] == listelm && elm !in ring
    modifies elm, listelm`next, listelm.next`prev
    ensures IsRing(ring[..i + 1] + [elm] + ring[i + 1..])
  {
    AddAfter(listelm, elm, ring, i);
  }

  /** In front of the head, the new entry is at the back of the ring. */
  method AddBefore(listelm: Entry, elm: Entry, ghost ring: seq<Entry>, ghost i: nat)
    requires IsRing(ring) && i < |ring| && ring[i] == listelm && elm !in ring
    modifies elm, listelm`prev, listelm.prev`next
    ensures IsRing(if i == 0 then ring + [elm] else ring[..i] + [elm] + ring[i..])
  {
    RingLinks(ring, i);
    ghost var j := if i == 0 then |ring| else i;
    AddBetween(elm, listelm.prev, listelm, ring, j);
    assert i == 0 ==> ring[..j] + [elm] + ring[j..] == ring + [elm];
  }

  /** The links of the deleted entry stay as they were; the only entry of a ring cannot be
      taken out of it. */
  method Del(listelm: Entry, ghost ring: seq<Entry>, ghost i: nat)
    requires IsRing(ring) && i < |ring| && ring[i] == listelm
    modifies listelm.prev`next, listelm.next`prev
    ensures IsRing(if |ring| == 1 then ring else ring[..i] + ring[i + 1..])
    ensures listelm.prev == old(listelm.prev) && listelm.next == old(listelm.next)
  {
    RingLinks(ring, i);
    ghost var r, j := ring, i;
    if i == 0 && |ring| > 1 {
      r, j := ring[1..] + [listelm], |ring| - 1;
      assert ring == [listelm] + ring[1..];
      RingRotates([listelm], ring[1..]);
      assert r[..j] + r[j + 1..] == ring[..i] + ring[i + 1..];
    }
    Unlink(listelm.prev, listelm.next, r, j);
  }

  method DelInit(listelm: Entry, ghost ring: seq<Entry>, ghost i: nat)
    requires IsRing(ring) && i < |ring| && ring[i] == listelm
    modifies listelm, listelm.prev`next, listelm.next`prev
    ensures |ring| > 1 ==> IsRing(ring[..i] + ring[i + 1..])
    ensures IsRing([listelm])
  {
    Del(listelm, ring, i);
    Init(listelm);
  }

  method Empty(list: Entry, ghost ring: seq<Entry>) returns (b: bool)
    requires IsRing(ring) && ring[0] == list
    ensures b <==> ring == [list]
  {
    RingLinks(ring, 0);
    return list.next == list;
  }

  method Next(listelm: Entry, ghost ring: seq<Entry>, ghost i: nat) returns (r: Entry)
    requires IsRing(ring) && i < |ring| && ring[i] == listelm
    ensures r == ring[if i + 1 == |ring| then 0 else i + 1]
  {
    RingLinks(ring, i);
    return listelm.next;
  }

  method Prev(listelm: Entry, ghost ring: seq<Entry>, ghost i: nat) returns (r: Entry)
    requires IsRing(ring) && i < |ring| && ring[i] == listelm
    ensures r == ring[if i == 0 then |ring| - 1 else i - 1]
  {
    RingLinks(ring, i);
    return listelm.prev;
  }

  /** Where an entry is found again by its own links once it is out of the ring. */
  lemma Neighbours(ring: seq<Entry>, i: nat)
    requires IsRing(ring) && i < |ring| && |ring| > 1
    ensures ring[i].prev.next == ring[i] && ring[i].next.prev == ring[i]
    ensures var rest, j := ring[..i] + ring[i + 1..], if i == 0 then |ring| - 1 else i;
            ring[i] !in rest && rest[j - 1] == ring[i].prev && (rest + [rest[0]])[j] == ring[i].next
  {
    RingLinks(ring, i);
    RingLinks(ring, if i == 0 then |ring| - 1 else i - 1);
    RingLinks(ring, if i + 1 == |ring| then 0 else i + 1);
  }

  /** A client that deletes an entry and, without reinitialising it, puts it back between
      the neighbours its own stale links still name: every link is as before. */
  method DelAndPutBack(elm: Entry, ghost ring: seq<Entry>, ghost i: nat)
    requires IsRing(ring) && i < |ring| && ring[i] == elm
    modifies elm, elm.prev`next, elm.next`prev
    ensures elm.prev == old(elm.prev) && elm.next == old(elm.next)
    ensures elm.prev.next == old(elm.prev.next) && elm.next.prev == old(elm.next.prev)
  {
    ghost var rest, j := ring, 1;
    if |ring| > 1 {
      Neighbours(ring, i);
      rest, j := ring[..i] + ring[i + 1..], if i == 0 then |ring| - 1 else i;
    } else {
      RingLinks(ring, i);
      assert ring == [elm];
    }
    Del(elm, ring, i);
    AddBetween(elm, elm.prev, elm.next, rest, j);
  }

  // ----- Runs over any number of rings

  datatype Op =
    | InitOp(elm: Entry)
    | AddAfterOp(listelm: Entry, elm: Entry)
    | AddBeforeOp(listelm: Entry, elm: Entry)
    | DelOp(elm: Entry)
    | DelInitOp(elm: Entry)

  ghost function Entries(rings: set<seq<Entry>>): set<Entry> {
    set r, x | r in rings && x in r :: x
  }

  /** No entry is in two rings, or twice in one. */
  ghost predicate Disjoint(rings: set<seq<Entry>>) {
    && (forall r | r in rings :: r != [] && Distinct(r))
    && (forall r, s, x | r in rings && s in rings && x in r && x in s :: r == s)
  }

  ghost predicate AllRings(rings: set<seq<Entry>>)
    reads Entries(rings)
  {
    assert forall r, x | r in rings && x in r :: x in Entries(rings);
    Disjoint(rings) && forall r | r in rings :: IsRing(r)
  }

  ghost function RingOf(rings: set<seq<Entry>>, x: Entry): (r: seq<Entry>)
    requires x in Entries(rings)
    ensures r in rings && x in r
  {
    var r :| r in rings && x in r;
    r
  }

  ghost function IndexOf(ring: seq<Entry>, x: Entry): (i: nat)
    requires x in ring
    ensures i < |ring| && ring[i] == x
  {
    if ring[0] == x then 0 else 1 + IndexOf(ring[1..], x)
  }

  /** In no ring, or the only entry of its own. */
  ghost predicate Free(rings: set<seq<Entry>>, elm: Entry) {
    elm !in Entries(rings) || [elm] in rings
  }

  /** Only free entries are initialised or added, and only to an entry of another ring; any
      entry of a ring may be deleted. */
  ghost predicate Enabled(rings: set<seq<Entry>>, op: Op) {
    match op
    case InitOp(elm) => Free(rings, elm)
    case AddAfterOp(listelm, elm) => Free(rings, elm) && listelm in Entries(rings) && listelm != elm
    case AddBeforeOp(listelm, elm) => Free(rings, elm) && listelm in Entries(rings) && listelm != elm
    case DelOp(elm) => elm in Entries(rings)
    case DelInitOp(elm) => elm in Entries(rings)
  }

  ghost function Inserted(ring: seq<Entry>, j: nat, elm: Entry): seq<Entry>
    requires j <= |ring|
  {
    ring[..j] + [elm] + ring[j..]
  }

  ghost function Removed(ring: seq<Entry>, elm: Entry): seq<Entry>
    requires elm in ring
  {
    var i := IndexOf(ring, elm);
    ring[..i] + ring[i + 1..]
  }

  /** The ring an operation works on. */
  ghost function Before(rings: set<seq<Entry>>, op: Op): seq<Entry>
    requires Enabled(rings, op)
  {
    match op
    case InitOp(elm) => [elm]
    case AddAfterOp(listelm, _) => RingOf(rings, listelm)
    case AddBeforeOp(listelm, _) => RingOf(rings, listelm)
    case DelOp(elm) => RingOf(rings, elm)
    case DelInitOp(elm) => RingOf(rings, elm)
  }

  ghost predicate Fits(r: seq<Entry>, op: Op) {
    match op
    case InitOp(elm) => r == [elm]
    case AddAfterOp(listelm, elm) => listelm in r && elm !in r
    case AddBeforeOp(listelm, elm) => listelm in r && elm !in r
    case DelOp(elm) => elm in r
    case DelInitOp(elm) => elm in r
  }

  /** The rings it makes of that one. */
  ghost function After(r: seq<Entry>, op: Op): set<seq<Entry>>
    requires Fits(r, op)
  {
    match op
    case InitOp(elm) => {[elm]}
    case AddAfterOp(listelm, elm) => {Inserted(r, IndexOf(r, listelm) + 1, elm)}
    case AddBeforeOp(listelm, elm) =>
      var i := IndexOf(r, listelm);
      {if i == 0 then r + [elm] else Inserted(r, i, elm)}
    case DelOp(elm) => if |r| == 1 then {r} else {Removed(r, elm)}
    case DelInitOp(elm) => if |r| == 1 then {r} else {Removed(r, elm), [elm]}
  }

  lemma BeforeFits(rings: set<seq<Entry>>, op: Op)
    requires Disjoint(rings) && Enabled(rings, op)
    ensures var r := Before(rings, op);
            && Fits(r, op) && (r in rings || r == [op.elm])
            && r != [] && Distinct(r)
  {
    assert op.elm in [op.elm];
  }

  /** All other rings stay, except that an entry added from a ring of its own leaves it. */
  ghost function Step(rings: set<seq<Entry>>, op: Op): set<seq<Entry>>
    requires Disjoint(rings) && Enabled(rings, op)
  {
    BeforeFits(rings, op);
    rings - {Before(rings, op), [op.elm]} + After(Before(rings, op), op)
  }

  lemma InsertedEntries(ring: seq<Entry>, j: nat, elm: Entry)
    requires j <= |ring|
    ensures forall x :: x in Inserted(ring, j, elm) <==> x in ring || x == elm
    ensures Distinct(ring) && elm !in ring ==> Distinct(Inserted(ring, j, elm))
  {
    var s := Inserted(ring, j, elm);
    assert forall k | 0 <= k < |ring| :: ring[k] == s[if k < j then k else k + 1];
    assert s[j] == elm;
    assert forall k | 0 <= k < |s| && k != j :: s[k] == ring[if k < j then k else k - 1];
  }

  lemma RemovedEntries(ring: seq<Entry>, elm: Entry)
    requires Distinct(ring) && elm in ring
    ensures forall x :: x in Removed(ring, elm) <==> x in ring && x != elm
    ensures Distinct(Removed(ring, elm)) && |Removed(ring, elm)| == |ring| - 1
  {
    CutEntries(ring, IndexOf(ring, elm));
  }

  lemma CutEntries(ring: seq<Entry>, i: nat)
    requires Distinct(ring) && i < |ring|
    ensures forall x :: x in ring[..i] + ring[i + 1..] <==> x in ring && x != ring[i]
    ensures Distinct(ring[..i] + ring[i + 1..])
  {
    var s := ring[..i] + ring[i + 1..];
    assert forall k | 0 <= k < |s| :: s[k] == ring[if k < i then k else k + 1];
    forall x | x in ring && x != ring[i] ensures x in s {
      var k :| 0 <= k < |ring| && ring[k] == x;
      assert s[if k < i then k else k - 1] == x;
    }
  }

  lemma EntriesOfSum(a: set<seq<Entry>>, b: set<seq<Entry>>)
    ensures Entries(a + b) == Entries(a) + Entries(b)
  {
  }

  lemma EntriesOfOne(r: seq<Entry>)
    ensures Entries({r}) == set x | x in r
  {
  }

  /** What the new rings of an operation consist of. */
  lemma AfterEntries(r: seq<Entry>, op: Op)
    requires r != [] && Distinct(r) && Fits(r, op)
    ensures Disjoint(After(r, op))
    ensures Entries(After(r, op)) ==
            var was := (set x | x in r) + {op.elm};
            if op.DelOp? && |r| > 1 then was - {op.elm} else was
  {
    var elm := op.elm;
    EntriesOfOne([elm]);
    match op
    case InitOp(_) =>
    case AddAfterOp(listelm, _) =>
      AddedEntries(r, IndexOf(r, listelm) + 1, elm);
    case AddBeforeOp(listelm, _) =>
      assert Inserted(r, |r|, elm) == r + [elm];
      AddedEntries(r, if IndexOf(r, listelm) == 0 then |r| else IndexOf(r, listelm), elm);
    case DelOp(_) =>
      RemovedEntries(r, elm);
      EntriesOfOne(r);
      EntriesOfOne(Removed(r, elm));
    case DelInitOp(_) =>
      RemovedEntries(r, elm);
      EntriesOfOne(r);
      EntriesOfOne(Removed(r, elm));
      EntriesOfSum({Removed(r, elm)}, {[elm]});
      assert {Removed(r, elm), [elm]} == {Removed(r, elm)} + {[elm]};
  }

  lemma AddedEntries(r: seq<Entry>, j: nat, elm: Entry)
    requires Distinct(r) && elm !in r && j <= |r|
    ensures Disjoint({Inserted(r, j, elm)})
    ensures Entries({Inserted(r, j, elm)}) == (set x | x in r) + {elm}
  {
    InsertedEntries(r, j, elm);
    EntriesOfOne(Inserted(r, j, elm));
  }

  /** The rings an operation leaves alone share no entry with those it concerns. */
  lemma KeptApart(rings: set<seq<Entry>>, op: Op, s: seq<Entry>)
    requires Disjoint(rings) && Enabled(rings, op)
    requires s in rings && s != Before(rings, op) && s != [op.elm]
    ensures op.elm !in s && forall x | x in s :: x !in Before(rings, op)
  {
    BeforeFits(rings, op);
    assert op.elm in [op.elm];
  }

  /** Operations keep the rings disjoint, and no entry is lost: list_del frees the entry it
      takes out of a longer ring, the others keep or gain theirs. */
  lemma StepKeepsDisjoint(rings: set<seq<Entry>>, op: Op)
    requires Disjoint(rings) && Enabled(rings, op)
    ensures Disjoint(Step(rings, op))
    ensures Entries(Step(rings, op)) ==
            if op.DelOp? && |Before(rings, op)| > 1 then Entries(rings) - {op.elm} else Entries(rings) + {op.elm}
  {
    BeforeFits(rings, op);
    var r, single := Before(rings, op), [op.elm];
    AfterEntries(r, op);
    var kept, next := rings - {r, single}, After(r, op);
    forall s | s in kept ensures op.elm !in s && forall x | x in s :: x !in r {
      KeptApart(rings, op, s);
    }
    assert op.DelOp? ==> op.elm in r;
    hide After, Before, Enabled, Fits, Distinct;
    JoinDisjoint(kept, next);
    EntriesOfSum(kept, next);
    RestoreEntries(rings, r, op.elm);
  }

  lemma JoinDisjoint(a: set<seq<Entry>>, b: set<seq<Entry>>)
    requires Disjoint(a) && Disjoint(b) && forall s | s in a :: forall x | x in s :: x !in Entries(b)
    ensures Disjoint(a + b)
  {
    forall r, s, x | r in a + b && s in a + b && x in r && x in s ensures r == s {
      assert r in b ==> x in Entries(b);
      assert s in b ==> x in Entries(b);
    }
  }

  lemma RestoreEntries(rings: set<seq<Entry>>, r: seq<Entry>, elm: Entry)
    requires r in rings || r == [elm]
    ensures Entries(rings) + {elm} == Entries(rings - {r, [elm]}) + (set x | x in r) + {elm}
  {
    forall x | x in Entries(rings) && x != elm && x !in r
      ensures x in Entries(rings - {r, [elm]})
    {
      var s :| s in rings && x in s;
    }
  }

  twostate lemma RingKept(r: seq<Entry>)
    requires old(IsRing(r)) && forall x | x in r :: x.prev == old(x.prev) && x.next == old(x.next)
    ensures IsRing(r)
  {
  }

  /** Carries out one operation on the ring it concerns; all others are as they were. */
  method Apply(op: Op, ghost rings: set<seq<Entry>>)
    requires AllRings(rings) && Enabled(rings, op)
    modifies Entries(rings), op.elm
    ensures AllRings(Step(rings, op))
  {
    BeforeFits(rings, op);
    ghost var ring := Before(rings, op);
    StepKeepsDisjoint(rings, op);
    hide Before, Enabled, IsRing, After, Fits, Distinct;
    assert forall x | x in ring :: x in Entries(rings) || x == op.elm;
    ApplyToRing(op, ring);
    forall r | r in Step(rings, op) ensures IsRing(r) {
      if r !in After(ring, op) {
        KeptApart(rings, op, r);
        RingKept(r);
      }
    }
  }

  method ApplyToRing(op: Op, ghost ring: seq<Entry>)
    requires Fits(ring, op) && (op.InitOp? || IsRing(ring))
    modifies ring, op.elm
    ensures forall r | r in After(ring, op) :: IsRing(r)
  {
    if op.InitOp? {
      Init(op.elm);
    } else if op.AddAfterOp? || op.AddBeforeOp? {
      AddToRing(op, ring);
    } else {
      DeleteFromRing(op, ring);
    }
  }

  method AddToRing(op: Op, ghost ring: seq<Entry>)
    requires Fits(ring, op) && IsRing(ring) && (op.AddAfterOp? || op.AddBeforeOp?)
    modifies ring, op.elm
    ensures forall r | r in After(ring, op) :: IsRing(r)
  {
    ghost var i := IndexOf(ring, op.listelm);
    RingLinks(ring, i);
    hide IsRing;
    if op.AddAfterOp? {
      AddAfter(op.listelm, op.elm, ring, i);
    } else {
      AddBefore(op.listelm, op.elm, ring, i);
    }
  }

  method DeleteFromRing(op: Op, ghost ring: seq<Entry>)
    requires Fits(ring, op) && IsRing(ring) && (op.DelOp? || op.DelInitOp?)
    modifies ring
    ensures forall r | r in After(ring, op) :: IsRing(r)
  {
    ghost var i := IndexOf(ring, op.elm);
    RingLinks(ring, i);
    assert |ring| == 1 ==> ring == [op.elm];
    hide IsRing;
    if op.DelOp? {
      Del(op.elm, ring, i);
    } else {
      DelInit(op.elm, ring, i);
    }
  }

  ghost predicate AllEnabled(rings: set<seq<Entry>>, ops: seq<Op>)
    requires Disjoint(rings)
    decreases |ops|
  {
    ops != [] ==>
      Enabled(rings, ops[0]) &&
      (StepKeepsDisjoint(rings, ops[0]); AllEnabled(Step(rings, ops[0]), ops[1..]))
  }

  ghost function Run(rings: set<seq<Entry>>, ops: seq<Op>): set<seq<Entry>>
    requires Disjoint(rings) && AllEnabled(rings, ops)
    decreases |ops|
  {
    if ops == [] then rings
    else
      StepKeepsDisjoint(rings, ops[0]);
      Run(Step(rings, ops[0]), ops[1..])
  }

  /** A client that performs a run over any number of disjoint rings, in which entries may
      leave one ring and join another: it leaves the rings that the run leads to, and
      entries outside keep their links. */
  method Perform(ops: seq<Op>, ghost rings: set<seq<Entry>>, ghost others: seq<Entry>)
    requires AllRings(rings) && AllEnabled(rings, ops)
    requires forall x | x in others :: x !in Entries(rings) && forall op | op in ops :: op.elm != x
    modifies Entries(rings), set op | op in ops :: op.elm
    ensures AllRings(Run(rings, ops))
    ensures forall x | x in others :: x.prev == old(x.prev) && x.next == old(x.next)
    decreases |ops|
  {
    hide Entries, IsRing, Disjoint, Enabled, Step;
    if ops != [] {
      assert forall x | x in others :: allocated(x);
      StepKeepsDisjoint(rings, ops[0]);
      Apply(ops[0], rings);
      Perform(ops[1..], Step(rings, ops[0]), others);
    }
  }
}
