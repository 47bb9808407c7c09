/** Whole runs of the skew heap: the abstract priority queue it refines, and the total
    cost of a run.  Between operations the client may change the priorities of nodes that
    are outside the heap, which appears here as a new comparator. */
module HeapRuns {
  import opened SkewTree
  import opened SkewCost
  import SkewHeap

  datatype Op<!T> = Insert(x: T) | Remove(x: T) | Rekey(comp: (T, T) -> int)

  datatype State<!T> = State(comp: (T, T) -> int, tree: Tree<T>)

  ghost function Step<T>(s: State<T>, op: Op<T>): State<T> {
    match op
    case Insert(x) => State(s.comp, SkewTree.Insert(s.comp, s.tree, x))
    case Remove(x) => State(s.comp, SkewTree.Remove(s.comp, s.tree, x))
    case Rekey(comp) => State(comp, s.tree)
  }

  ghost function Run<T>(s: State<T>, ops: seq<Op<T>>): State<T>
    decreases |ops|
  {
    if ops == [] then s else Run(Step(s, ops[0]), ops[1..])
  }

  /** Only absent nodes are inserted and only present nodes are removed. */
  ghost predicate Enabled<T>(s: State<T>, op: Op<T>) {
    match op
    case Insert(x) => x !in Elems(s.tree)
    case Remove(x) => x in Elems(s.tree)
    case Rekey(_) => true
  }

  ghost predicate AllEnabled<T>(s: State<T>, ops: seq<Op<T>>)
    decreases |ops|
  {
    ops != [] ==> Enabled(s, ops[0]) && AllEnabled(Step(s, ops[0]), ops[1..])
  }

  lemma EnabledStepKeepsDistinct<T>(s: State<T>, op: Op<T>)
    requires Distinct(s.tree) && Enabled(s, op)
    ensures Distinct(Step(s, op).tree)
    ensures Elems(Step(s, op).tree) == AbstractStep(Elems(s.tree), op)
  {
    match op
    case Insert(x) => MergeElems(s.comp, s.tree, Single(x));
    case Remove(x) => RemoveElems(s.comp, s.tree, x);
    case Rekey(_) =>
  }

  // ----- The abstract priority queue: a set of nodes

  ghost function AbstractStep<T>(s: set<T>, op: Op<T>): set<T> {
    match op
    case Insert(x) => s + {x}
    case Remove(x) => s - {x}
    case Rekey(_) => s
  }

  ghost function AbstractRun<T>(s: set<T>, ops: seq<Op<T>>): set<T>
    decreases |ops|
  {
    if ops == [] then s else AbstractRun(AbstractStep(s, ops[0]), ops[1..])
  }

  /** What the client owes the heap: the comparator orders an inserted node among the
      members, and a new comparator agrees with the old one on the members. */
  ghost predicate KeepsPriorities<T>(s: State<T>, op: Op<T>) {
    match op
    case Insert(x) => StrictWeakOrder(s.comp, Elems(s.tree) + {x})
    case Remove(_) => true
    case Rekey(comp) =>
      forall x, y | x in Elems(s.tree) && y in Elems(s.tree) :: Beats(s.comp, x, y) == Beats(comp, x, y)
  }

  ghost predicate AllKeepPriorities<T>(s: State<T>, ops: seq<Op<T>>)
    decreases |ops|
  {
    ops != [] ==> KeepsPriorities(s, ops[0]) && AllKeepPriorities(Step(s, ops[0]), ops[1..])
  }

  ghost predicate PriorityQueue<T>(s: State<T>) {
    Distinct(s.tree) && StrictWeakOrder(s.comp, Elems(s.tree)) && Ordered(s.comp, s.tree)
  }

  lemma StepKeepsPriorityQueue<T>(s: State<T>, op: Op<T>)
    requires PriorityQueue(s) && Enabled(s, op) && KeepsPriorities(s, op)
    ensures PriorityQueue(Step(s, op))
  {
    EnabledStepKeepsDistinct(s, op);
    match op
    case Insert(x) =>
      assert Ordered(s.comp, Single(x));
      MergeOrdered(s.comp, s.tree, Single(x));
    case Remove(x) =>
      RemoveOrdered(s.comp, s.tree, x);
    case Rekey(comp) =>
      OrderedCongruence(s.comp, comp, s.tree);
  }

  /** Every run holds exactly the nodes of the abstract queue, and what the root pointer
      shows after it is a member that no member beats. */
  lemma {:induction false} RunRefinesPriorityQueue<T>(s: State<T>, ops: seq<Op<T>>)
    requires PriorityQueue(s) && AllEnabled(s, ops) && AllKeepPriorities(s, ops)
    ensures PriorityQueue(Run(s, ops))
    ensures Elems(Run(s, ops).tree) == AbstractRun(Elems(s.tree), ops)
    ensures var t := Run(s, ops).tree;
            if t.Leaf? then AbstractRun(Elems(s.tree), ops) == {}
            else t.elem in AbstractRun(Elems(s.tree), ops) &&
                 forall x | x in AbstractRun(Elems(s.tree), ops) :: !Beats(Run(s, ops).comp, x, t.elem)
    decreases |ops|
  {
    if ops == [] {
      if s.tree.Node? {
        RootIsUnbeaten(s.comp, s.tree);
      }
    } else {
      StepKeepsPriorityQueue(s, ops[0]);
      EnabledStepKeepsDistinct(s, ops[0]);
      RunRefinesPriorityQueue(Step(s, ops[0]), ops[1..]);
    }
  }

  // ----- Ties

  ghost function Insertions<T>(xs: seq<T>): seq<Op<T>> {
    seq(|xs|, i requires 0 <= i < |xs| => Insert(xs[i]))
  }

  ghost predicate IsPreceded<T>(comp: (T, T) -> int, xs: seq<T>, x: T) {
    exists y | y in xs :: comp(y, x) == -1
  }

  /** Nothing precedes xs[i], and something precedes each of those behind it. */
  ghost predicate IsLastUnpreceded<T>(comp: (T, T) -> int, xs: seq<T>, i: int) {
    0 <= i < |xs| && !IsPreceded(comp, xs, xs[i]) && forall j | i < j < |xs| :: IsPreceded(comp, xs, xs[j])
  }

  lemma {:induction false} RunSnoc<T>(s: State<T>, ops: seq<Op<T>>, op: Op<T>)
    ensures Run(s, ops + [op]) == Step(Run(s, ops), op)
    decreases |ops|
  {
    hide Step;
    if ops == [] {
      assert Run(Step(s, op), []) == Step(s, op);
      assert ([] + [op])[1..] == [];
    } else {
      assert (ops + [op])[1..] == ops[1..] + [op];
      RunSnoc(Step(s, ops[0]), ops[1..], op);
    }
  }

  /** After insertions into the empty heap the root is, of the nodes that nothing precedes,
      the one inserted last: nodes of equal priority leave in the opposite order. */
  lemma {:induction false} LastInsertedFirst<T>(comp: (T, T) -> int, xs: seq<T>)
    requires xs != [] && StrictWeakOrder(comp, set x | x in xs)
    ensures var s := Run(State(comp, Leaf), Insertions(xs));
            && s.comp == comp && s.tree.Node?
            && exists i :: IsLastUnpreceded(comp, xs, i) && s.tree.elem == xs[i]
  {
    hide StrictWeakOrder, IsPreceded, Run;
    var front, x := xs[..|xs| - 1], xs[|xs| - 1];
    var start := State(comp, Leaf);
    RunSnoc(start, Insertions(front), Insert(x));
    assert Insertions(xs) == Insertions(front) + [Insert(x)];
    assert xs == front + [x];
    if front == [] {
      FirstInserted(comp, x);
    } else {
      OrderOfFront(comp, front, x);
      LastInsertedFirst(comp, front);
      var s := Run(start, Insertions(front));
      var i :| IsLastUnpreceded(comp, front, i) && s.tree.elem == front[i];
      NextUnpreceded(comp, front, x, i);
      assert xs[if comp(front[i], x) == -1 then i else |front|] == Step(s, Insert(x)).tree.elem;
    }
  }

  lemma FirstInserted<T>(comp: (T, T) -> int, x: T)
    requires StrictWeakOrder(comp, set y | y in [x])
    ensures IsLastUnpreceded(comp, [x], 0)
    ensures Step(Run(State(comp, Leaf), Insertions([])), Insert(x)) == State(comp, Single(x))
  {
    assert x in [x];
    assert !Beats(comp, x, x);
  }

  lemma OrderOfFront<T>(comp: (T, T) -> int, front: seq<T>, x: T)
    requires StrictWeakOrder(comp, set y | y in front + [x])
    ensures StrictWeakOrder(comp, set y | y in front)
  {
    assert (set y | y in front) <= (set y | y in front + [x]);
  }

  lemma OrderLaws<T>(comp: (T, T) -> int, s: set<T>, x: T, y: T, z: T)
    requires StrictWeakOrder(comp, s) && x in s && y in s && z in s
    ensures comp(x, x) != -1 && (comp(x, y) == -1 ==> comp(y, x) != -1)
    ensures comp(x, y) != -1 && comp(y, z) != -1 ==> comp(x, z) != -1
  {
    assert Beats(comp, x, x) ==> !Beats(comp, x, x);
    assert !Beats(comp, x, y) && !Beats(comp, y, z) ==> !Beats(comp, x, z);
    assert Beats(comp, x, y) ==> !Beats(comp, y, x);
  }

  lemma NextUnpreceded<T>(comp: (T, T) -> int, front: seq<T>, x: T, i: int)
    requires StrictWeakOrder(comp, set y | y in front + [x]) && IsLastUnpreceded(comp, front, i)
    ensures IsLastUnpreceded(comp, front + [x], if comp(front[i], x) == -1 then i else |front|)
  {
    hide StrictWeakOrder, Beats;
    var xs, root := front + [x], front[i];
    var members := set z | z in xs;
    assert x in xs && root in front && forall y | y in front :: y in xs;
    forall y | y in front ensures comp(y, root) != -1 && (comp(root, x) != -1 ==> comp(y, x) != -1) {
      assert comp(y, root) == -1 ==> IsPreceded(comp, front, root);
      OrderLaws(comp, members, y, root, x);
    }
    OrderLaws(comp, members, x, root, x);
    OrderLaws(comp, members, root, x, x);
    MorePreceded(comp, front, x);
    assert IsPreceded(comp, front, x) ==> exists y :: y in front && comp(y, x) == -1;
    assert comp(root, x) == -1 ==> IsPreceded(comp, front, x);
    hide IsPreceded;
    assert xs[..|front|] == front;
    assert forall j | 0 <= j < |front| :: xs[j] == front[j];
  }

  lemma MorePreceded<T>(comp: (T, T) -> int, front: seq<T>, x: T)
    ensures forall y :: IsPreceded(comp, front + [x], y) <==> IsPreceded(comp, front, y) || comp(x, y) == -1
  {
    forall z ensures z in front + [x] <==> z in front || z == x {}
  }

  // ----- Cost of runs, for any comparators

  ghost function Cost<T>(s: State<T>, op: Op<T>): nat {
    match op
    case Insert(x) => Steps(s.comp, s.tree, Single(x))
    case Remove(x) => RemoveSteps(s.comp, SubtreeAt(s.tree, x))
    case Rekey(_) => 0
  }

  ghost function TotalCost<T>(s: State<T>, ops: seq<Op<T>>): nat
    decreases |ops|
  {
    if ops == [] then 0 else Cost(s, ops[0]) + TotalCost(Step(s, ops[0]), ops[1..])
  }

  ghost function Allowance<T>(s: State<T>, op: Op<T>): nat {
    match op
    case Insert(_) => 2 * (Lg(Size(s.tree)) + 1)
    case Remove(_) => 4 * Lg(Size(s.tree))
    case Rekey(_) => 0
  }

  ghost function TotalAllowance<T>(s: State<T>, ops: seq<Op<T>>): nat
    decreases |ops|
  {
    if ops == [] then 0 else Allowance(s, ops[0]) + TotalAllowance(Step(s, ops[0]), ops[1..])
  }

  lemma {:induction false} RunAmortised<T>(s: State<T>, ops: seq<Op<T>>)
    requires Distinct(s.tree) && AllEnabled(s, ops)
    ensures TotalCost(s, ops) + Potential(Run(s, ops).tree) <= Potential(s.tree) + TotalAllowance(s, ops)
    decreases |ops|
  {
    if ops != [] {
      match ops[0] {
        case Insert(x) => InsertAmortised(s.comp, s.tree, x);
        case Remove(x) => RemoveAmortised(s.comp, s.tree, x);
        case Rekey(_) =>
      }
      EnabledStepKeepsDistinct(s, ops[0]);
      RunAmortised(Step(s, ops[0]), ops[1..]);
    }
  }

  /** From the empty heap, a run never costs more than its allowances, and n operations
      never more than n times 4 lg(n) + 2. */
  lemma RunFromEmpty<T>(comp: (T, T) -> int, ops: seq<Op<T>>)
    requires AllEnabled(State(comp, Leaf), ops)
    ensures TotalCost(State(comp, Leaf), ops) <= TotalAllowance(State(comp, Leaf), ops)
    ensures TotalCost(State(comp, Leaf), ops) <= |ops| * (4 * Lg(|ops|) + 2)
  {
    var s := State(comp, Leaf);
    RunAmortised(s, ops);
    AllowancesAreLogarithmic(s, ops, |ops|);
  }

  lemma {:induction false} AllowancesAreLogarithmic<T>(s: State<T>, ops: seq<Op<T>>, n: nat)
    requires Distinct(s.tree) && AllEnabled(s, ops) && Size(s.tree) + |ops| <= n
    ensures TotalAllowance(s, ops) <= |ops| * (4 * Lg(n) + 2)
    decreases |ops|
  {
    if ops != [] {
      var s' := Step(s, ops[0]);
      LgMonotone(Size(s.tree), n);
      EnabledStepKeepsDistinct(s, ops[0]);
      if ops[0].Remove? {
        RemoveElems(s.comp, s.tree, ops[0].x);
      }
      assert Size(s'.tree) <= Size(s.tree) + 1;
      AllowancesAreLogarithmic(s', ops[1..], n);
      assert |ops| * (4 * Lg(n) + 2) == (4 * Lg(n) + 2) + (|ops| - 1) * (4 * Lg(n) + 2);
    }
  }

  // ----- The same runs on pointers

  ghost function Mentioned(ops: seq<Op<SkewHeap.Entry>>): set<SkewHeap.Entry> {
    set op | op in ops && op.Insert? :: op.x
  }

  /** Null for the empty queue, and otherwise a member that no member beats. */
  ghost predicate IsMinimum(m: SkewHeap.Entry?, queue: set<SkewHeap.Entry>, comp: SkewHeap.Comparator) {
    if m == null then queue == {}
    else m in queue && forall x | x in queue :: comp(x, m) != -1
  }

  lemma RootIsMinimum(s: State<SkewHeap.Entry>, ops: seq<Op<SkewHeap.Entry>>)
    requires PriorityQueue(s) && AllEnabled(s, ops) && AllKeepPriorities(s, ops)
    ensures IsMinimum(SkewHeap.Root(Run(s, ops).tree), AbstractRun(Elems(s.tree), ops), Run(s, ops).comp)
  {
    hide Run, AbstractRun, AllEnabled, AllKeepPriorities, Elems;
    RunRefinesPriorityQueue(s, ops);
  }

  method Apply(a: SkewHeap.Entry?, comp: SkewHeap.Comparator, op: Op<SkewHeap.Entry>,
               ghost t: Tree<SkewHeap.Entry>)
    returns (m: SkewHeap.Entry?, comp': SkewHeap.Comparator, ghost steps: nat)
    requires SkewHeap.IsHeap(a, t) && Enabled(State(comp, t), op)
    modifies Elems(t), Mentioned([op])
    ensures var s := Step(State(comp, t), op);
            && SkewHeap.IsHeap(m, s.tree) && comp' == s.comp
            && Elems(s.tree) == AbstractStep(Elems(t), op)
    ensures steps == Cost(State(comp, t), op)
  {
    EnabledStepKeepsDistinct(State(comp, t), op);
    m, comp', steps := a, comp, 0;
    assert op in [op];
    match op
    case Insert(x) => m, steps := SkewHeap.Insert(a, x, comp, t);
    case Remove(x) => m, steps := SkewHeap.Remove(a, x, comp, t);
    case Rekey(c) => comp' := c;
  }

  /** A client that performs a run on real nodes, each operation on the root pointer the
      previous one returned.  Inserted nodes may be ones removed earlier in the run, with
      whatever links removal left in them.  Where the client keeps the order laws, the pointer
      that comes out is a minimum of the abstract queue. */
  method Perform(a: SkewHeap.Entry?, comp: SkewHeap.Comparator, ops: seq<Op<SkewHeap.Entry>>,
                 ghost t: Tree<SkewHeap.Entry>)
    returns (m: SkewHeap.Entry?, ghost steps: nat)
    requires SkewHeap.IsHeap(a, t) && AllEnabled(State(comp, t), ops)
    modifies Elems(t), Mentioned(ops)
    ensures SkewHeap.IsHeap(m, Run(State(comp, t), ops).tree)
    ensures steps == TotalCost(State(comp, t), ops)
    ensures PriorityQueue(State(comp, t)) && AllKeepPriorities(State(comp, t), ops) ==>
              IsMinimum(m, AbstractRun(Elems(t), ops), Run(State(comp, t), ops).comp)
    decreases |ops|
  {
    hide Elems, Step, Cost, Enabled, PriorityQueue, AllKeepPriorities, AbstractRun, IsMinimum;
    if PriorityQueue(State(comp, t)) && AllKeepPriorities(State(comp, t), ops) {
      RootIsMinimum(State(comp, t), ops);
    }
    if ops == [] {
      return a, 0;
    }
    ghost var s := Step(State(comp, t), ops[0]);
    MentionedParts(ops);
    var comp';
    m, comp', steps := Apply(a, comp, ops[0], t);
    ghost var rest: nat;
    m, rest := Perform(m, comp', ops[1..], s.tree);
    steps := steps + rest;
  }

  lemma MentionedParts(ops: seq<Op<SkewHeap.Entry>>)
    requires ops != []
    ensures Mentioned([ops[0]]) <= Mentioned(ops) && Mentioned(ops[1..]) <= Mentioned(ops)
    ensures ops[0].Insert? ==> ops[0].x in Mentioned(ops)
  {
    assert ops[0] in ops;
    assert forall op | op in ops[1..] :: op in ops;
  }
}
