/** Bit operations on an array of 64-bit words.  Each atomic memory operation is one
    read-modify-write step. */
module BitArray {

  const BITS_PER_LONG := 64

  type Word = bv64

  /** The position of a bit in its word. */
  function Position(nr: nat): bv6 {
    (nr % BITS_PER_LONG) as bv6
  }

  function Mask(p: bv6): Word {
    1 << p
  }

  function Or(a: Word, b: Word): Word {
    a | b
  }

  function And(a: Word, b: Word): Word {
    a & b
  }

  function Xor(a: Word, b: Word): Word {
    a ^ b
  }

  function Not(a: Word): Word {
    !a
  }

  function ShiftedRight(a: Word, p: bv6): Word {
    a >> p
  }

  function BitMask(nr: nat): Word {
    Mask(Position(nr))
  }

  function BitWord(nr: nat): nat {
    nr / BITS_PER_LONG
  }

  predicate Bit(w: Word, p: bv6) {
    And(w, Mask(p)) != 0
  }

  // ----- Masks

  lemma MaskNonzero(p: bv6)
    ensures Mask(p) != 0
  {
  }

  lemma MasksDisjoint(p: bv6, q: bv6)
    requires p != q
    ensures And(Mask(p), Mask(q)) == 0
  {
  }

  lemma MaskIsOneBit(w: Word, p: bv6)
    ensures And(w, Mask(p)) == 0 || And(w, Mask(p)) == Mask(p)
  {
  }

  lemma SameMask(w: Word, m: Word)
    ensures And(Or(w, m), m) == m && And(And(w, Not(m)), m) == 0
  {
  }

  lemma SameMaskXor(w: Word, m: Word)
    ensures And(w, m) == 0 ==> And(Xor(w, m), m) == m
    ensures And(w, m) == m ==> And(Xor(w, m), m) == 0
  {
  }

  lemma OtherMaskOr(w: Word, m: Word, n: Word)
    requires And(m, n) == 0
    ensures And(Or(w, m), n) == And(w, n)
  {
  }

  lemma OtherMaskAnd(w: Word, m: Word, n: Word)
    requires And(m, n) == 0
    ensures And(And(w, Not(m)), n) == And(w, n)
  {
  }

  lemma OtherMaskXor(w: Word, m: Word, n: Word)
    requires And(m, n) == 0
    ensures And(Xor(w, m), n) == And(w, n)
  {
  }

  // ----- One word

  /** The three updates by a mask act on its bit and leave all others alone. */
  lemma BitUpdates(w: Word, p: bv6, q: bv6)
    ensures Bit(Or(w, Mask(p)), q) <==> q == p || Bit(w, q)
    ensures Bit(And(w, Not(Mask(p))), q) <==> q != p && Bit(w, q)
    ensures Bit(Xor(w, Mask(p)), q) <==> (q == p) != Bit(w, q)
  {
    hide Mask, Or, And, Xor, Not;
    var m, n := Mask(p), Mask(q);
    MaskNonzero(p);
    if p == q {
      MaskIsOneBit(w, p);
      SameMask(w, m);
      SameMaskXor(w, m);
    } else {
      MasksDisjoint(p, q);
      OtherMaskOr(w, m, n);
      OtherMaskAnd(w, m, n);
      OtherMaskXor(w, m, n);
    }
  }

  /** Shifting a bit down and looking at it is the same as masking it. */
  lemma ShiftFindsBit(w: Word, p: bv6)
    ensures And(ShiftedRight(w, p), 1) != 0 <==> Bit(w, p)
  {
  }

  lemma SixBits(n: nat)
    requires n < BITS_PER_LONG
    ensures n as bv6 as int == n
  {
  }

  lemma PositionIsRemainder(nr: nat)
    ensures Position(nr) as int == nr % BITS_PER_LONG
  {
    SixBits(nr % BITS_PER_LONG);
  }

  // ----- The set of bit numbers an array of words stands for

  ghost predicate InRange(words: seq<Word>, nr: nat) {
    nr < BITS_PER_LONG * |words|
  }

  ghost function Members(words: seq<Word>): set<nat> {
    set nr: nat | nr < BITS_PER_LONG * |words| && Bit(words[BitWord(nr)], Position(nr))
  }

  /** Distinct bit numbers never share both word and position. */
  lemma BitNumberUnique(m: nat, n: nat)
    ensures BitWord(m) == BitWord(n) && Position(m) == Position(n) <==> m == n
  {
    PositionIsRemainder(m);
    PositionIsRemainder(n);
  }

  /** Storing a word that differs from the old one at the bit of `nr` only. */
  lemma OneBitChanged(words: seq<Word>, nr: nat, w: Word)
    requires InRange(words, nr)
    requires forall q: bv6 | q != Position(nr) :: Bit(w, q) == Bit(words[BitWord(nr)], q)
    ensures Members(words[BitWord(nr) := w])
            == if Bit(w, Position(nr)) then Members(words) + {nr} else Members(words) - {nr}
  {
    hide Bit, Position;
    forall n: nat | InRange(words, n)
      ensures n in Members(words[BitWord(nr) := w])
              <==> if n == nr then Bit(w, Position(nr)) else n in Members(words)
    {
      BitNumberUnique(n, nr);
    }
  }

  /** What the three kinds of update of nr's word do to the set. */
  lemma WordChanges(words: seq<Word>, nr: nat)
    requires InRange(words, nr)
    ensures var i, w, m := BitWord(nr), words[BitWord(nr)], BitMask(nr);
            && Members(words[i := Or(w, m)]) == Members(words) + {nr}
            && Members(words[i := And(w, Not(m))]) == Members(words) - {nr}
            && Members(words[i := Xor(w, m)]) == Toggled(Members(words), nr)
  {
    hide Bit, Position, Mask, Or, And, Xor, Not;
    var w, m, p := words[BitWord(nr)], BitMask(nr), Position(nr);
    forall q: bv6
      ensures Bit(Or(w, m), q) <==> q == p || Bit(w, q)
      ensures Bit(And(w, Not(m)), q) <==> q != p && Bit(w, q)
      ensures Bit(Xor(w, m), q) <==> (q == p) != Bit(w, q)
    {
      BitUpdates(w, p, q);
    }
    OneBitChanged(words, nr, Or(w, m));
    OneBitChanged(words, nr, And(w, Not(m)));
    OneBitChanged(words, nr, Xor(w, m));
  }

  // ----- The three atomic memory operations, each returning the old word

  method AmoOr(addr: array<Word>, i: nat, operand: Word) returns (res: Word)
    requires i < addr.Length
    modifies addr
    ensures res == old(addr[i]) && addr[..] == old(addr[..])[i := Or(res, operand)]
  {
    hide Or, And, Xor;
    res := addr[i];
    addr[i] := Or(res, operand);
  }

  method AmoAnd(addr: array<Word>, i: nat, operand: Word) returns (res: Word)
    requires i < addr.Length
    modifies addr
    ensures res == old(addr[i]) && addr[..] == old(addr[..])[i := And(res, operand)]
  {
    hide Or, And, Xor;
    res := addr[i];
    addr[i] := And(res, operand);
  }

  method AmoXor(addr: array<Word>, i: nat, operand: Word) returns (res: Word)
    requires i < addr.Length
    modifies addr
    ensures res == old(addr[i]) && addr[..] == old(addr[..])[i := Xor(res, operand)]
  {
    hide Or, And, Xor;
    res := addr[i];
    addr[i] := Xor(res, operand);
  }

  // ----- Bit operations

  method SetBit(nr: nat, addr: array<Word>)
    requires InRange(addr[..], nr)
    modifies addr
    ensures Members(addr[..]) == old(Members(addr[..])) + {nr}
  {
    hide Position, Mask, Or, And, Xor, Not;
    WordChanges(addr[..], nr);
    var _ := AmoOr(addr, BitWord(nr), BitMask(nr));
  }

  method ClearBit(nr: nat, addr: array<Word>)
    requires InRange(addr[..], nr)
    modifies addr
    ensures Members(addr[..]) == old(Members(addr[..])) - {nr}
  {
    hide Position, Mask, Or, And, Xor, Not;
    WordChanges(addr[..], nr);
    var _ := AmoAnd(addr, BitWord(nr), Not(BitMask(nr)));
  }

  method ChangeBit(nr: nat, addr: array<Word>)
    requires InRange(addr[..], nr)
    modifies addr
    ensures Members(addr[..]) == Toggled(old(Members(addr[..])), nr)
  {
    hide Position, Mask, Or, And, Xor, Not;
    WordChanges(addr[..], nr);
    var _ := AmoXor(addr, BitWord(nr), BitMask(nr));
  }

  ghost function Toggled(s: set<nat>, nr: nat): set<nat> {
    if nr in s then s - {nr} else s + {nr}
  }

  method TestAndSetBit(nr: nat, addr: array<Word>) returns (was: bool)
    requires InRange(addr[..], nr)
    modifies addr
    ensures was <==> nr in old(Members(addr[..]))
    ensures Members(addr[..]) == old(Members(addr[..])) + {nr}
  {
    hide Position, Mask, Or, And, Xor, Not;
    WordChanges(addr[..], nr);
    var res := AmoOr(addr, BitWord(nr), BitMask(nr));
    was := And(res, BitMask(nr)) != 0;
  }

  method TestAndClearBit(nr: nat, addr: array<Word>) returns (was: bool)
    requires InRange(addr[..], nr)
    modifies addr
    ensures was <==> nr in old(Members(addr[..]))
    ensures Members(addr[..]) == old(Members(addr[..])) - {nr}
  {
    hide Position, Mask, Or, And, Xor, Not;
    WordChanges(addr[..], nr);
    var res := AmoAnd(addr, BitWord(nr), Not(BitMask(nr)));
    was := And(res, BitMask(nr)) != 0;
  }

  /** Only the first word is ever read, so bit numbers from 64 on are not for this one. */
  method TestBit(nr: nat, addr: array<Word>) returns (b: bool)
    requires nr < BITS_PER_LONG && addr.Length > 0
    ensures b <==> nr in Members(addr[..])
  {
    hide Position, Mask, And, ShiftedRight;
    ShiftFindsBit(addr[0], Position(nr));
    b := And(ShiftedRight(addr[0], Position(nr)), 1) != 0;
  }

  // ----- Runs

  datatype Op = SetOp(nr: nat) | ClearOp(nr: nat) | ChangeOp(nr: nat)
    | TestAndSetOp(nr: nat) | TestAndClearOp(nr: nat)

  ghost function AbstractRun(s: set<nat>, ops: seq<Op>): (set<nat>, seq<bool>)
    decreases |ops|
  {
    if ops == [] then (s, [])
    else
      match ops[0]
      case SetOp(nr) => AbstractRun(s + {nr}, ops[1..])
      case ClearOp(nr) => AbstractRun(s - {nr}, ops[1..])
      case ChangeOp(nr) => AbstractRun(Toggled(s, nr), ops[1..])
      case TestAndSetOp(nr) =>
        var (t, answers) := AbstractRun(s + {nr}, ops[1..]);
        (t, [nr in s] + answers)
      case TestAndClearOp(nr) =>
        var (t, answers) := AbstractRun(s - {nr}, ops[1..]);
        (t, [nr in s] + answers)
  }

  /** A client that performs a run: the array stands for the set the run leads to, and every
      test answered with the membership at its moment. */
  method Perform(ops: seq<Op>, addr: array<Word>) returns (answers: seq<bool>)
    requires forall op | op in ops :: InRange(addr[..], op.nr)
    modifies addr
    ensures (Members(addr[..]), answers) == AbstractRun(old(Members(addr[..])), ops)
    decreases |ops|
  {
    if ops == [] {
      return [];
    }
    var first: seq<bool> := [];
    match ops[0] {
      case SetOp(nr) => SetBit(nr, addr);
      case ClearOp(nr) => ClearBit(nr, addr);
      case ChangeOp(nr) => ChangeBit(nr, addr);
      case TestAndSetOp(nr) => var b := TestAndSetBit(nr, addr); first := [b];
      case TestAndClearOp(nr) => var b := TestAndClearBit(nr, addr); first := [b];
    }
    var rest := Perform(ops[1..], addr);
    assert [] + rest == rest;
    answers := first + rest;
  }
}
