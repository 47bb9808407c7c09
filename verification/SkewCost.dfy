/** The amortised cost of the skew heap, for any comparator.  A step is a call of merge
    with two non-empty arguments; the potential is the number of right-heavy nodes. */
module SkewCost {
  import opened Arith
  import opened SkewTree

  /** floor(log2(n + 1)); see LgIsLogarithm. */
  function Lg(n: nat): nat {
    if n == 0 then 0 else 1 + Lg((n - 1) / 2)
  }

  lemma {:induction false} LgIsLogarithm(n: nat)
    ensures Pow2(Lg(n)) <= n + 1 < Pow2(Lg(n) + 1)
  {
    if n > 0 {
      LgIsLogarithm((n - 1) / 2);
    }
  }

  lemma {:induction false} LgMonotone(m: nat, n: nat)
    requires m <= n
    ensures Lg(m) <= Lg(n)
  {
    if m > 0 {
      LgMonotone((m - 1) / 2, (n - 1) / 2);
    }
  }

  /** A tree with a subtree no larger than its sibling is at least one level up from it. */
  lemma LgOfLighterChild(m: nat, n: nat)
    requires 2 * m + 1 <= n
    ensures 1 + Lg(m) <= Lg(n)
  {
    LgMonotone(2 * m + 1, n);
  }

  function Steps<T>(comp: (T, T) -> int, a: Tree<T>, b: Tree<T>): nat
    decreases Size(a) + Size(b)
  {
    if a.Leaf? || b.Leaf? then 0
    else if Beats(comp, a.elem, b.elem) then 1 + Steps(comp, a.right, b)
    else 1 + Steps(comp, a, b.right)
  }

  function Spine<T>(t: Tree<T>): nat {
    match t
    case Leaf => 0
    case Node(_, _, r) => 1 + Spine(r)
  }

  /** Each step takes one node off the right spines, until one of them is used up. */
  lemma {:induction false} StepsUseUpASpine<T>(comp: (T, T) -> int, a: Tree<T>, b: Tree<T>)
    ensures Steps(comp, a, b) >= if Spine(a) < Spine(b) then Spine(a) else Spine(b)
    ensures a.Node? && b.Node? ==> Steps(comp, a, b) < Spine(a) + Spine(b)
    decreases Size(a) + Size(b)
  {
    if a.Node? && b.Node? {
      if Beats(comp, a.elem, b.elem) {
        StepsUseUpASpine(comp, a.right, b);
      } else {
        StepsUseUpASpine(comp, a, b.right);
      }
    }
  }

  function RightHeavy<T>(l: Tree<T>, r: Tree<T>): nat {
    if Size(r) > Size(l) then 1 else 0
  }

  function Potential<T>(t: Tree<T>): nat {
    match t
    case Leaf => 0
    case Node(l, _, r) => Potential(l) + RightHeavy(l, r) + Potential(r)
  }

  function RemoveSteps<T>(comp: (T, T) -> int, t: Tree<T>): nat {
    match t
    case Leaf => 0
    case Node(l, _, r) => Steps(comp, l, r)
  }

  lemma {:induction false} MergeAmortised<T>(comp: (T, T) -> int, a: Tree<T>, b: Tree<T>)
    ensures Steps(comp, a, b) + Potential(Merge(comp, a, b))
            <= Potential(a) + Potential(b) + 2 * (Lg(Size(a)) + Lg(Size(b)))
    decreases Size(a) + Size(b)
  {
    if a.Node? && b.Node? {
      if Beats(comp, a.elem, b.elem) {
        MergeAmortised(comp, a.right, b);
        SpineNode(a);
      } else {
        MergeAmortised(comp, a, b.right);
        SpineNode(b);
      }
    }
  }

  /** One spine node pays for its step: a right-heavy one by turning light, a light one
      because its right subtree is a whole level smaller. */
  lemma SpineNode<T>(t: Tree<T>)
    requires t.Node?
    ensures Lg(Size(t.right)) + (1 - RightHeavy(t.left, t.right)) <= Lg(Size(t))
  {
    if RightHeavy(t.left, t.right) == 0 {
      LgOfLighterChild(Size(t.right), Size(t));
    } else {
      LgMonotone(Size(t.right), Size(t));
    }
  }

  lemma InsertAmortised<T>(comp: (T, T) -> int, t: Tree<T>, x: T)
    ensures Steps(comp, t, Single(x)) + Potential(Insert(comp, t, x))
            <= Potential(t) + 2 * (Lg(Size(t)) + 1)
  {
    MergeAmortised(comp, t, Single(x));
    assert Lg(1) == 1 && Potential(Single(x)) == 0;
  }

  /** Removal of any node.  The bound already pays for the ancestors that turn right-heavy:
      such an ancestor had two subtrees of equal size, so it is a level above the removal. */
  lemma {:induction false} RemoveAmortised<T>(comp: (T, T) -> int, t: Tree<T>, x: T)
    requires Distinct(t)
    ensures RemoveSteps(comp, SubtreeAt(t, x)) + Potential(Remove(comp, t, x))
            <= Potential(t) + 4 * Lg(Size(t))
  {
    if t.Node? {
      LgMonotone(Size(t.left), Size(t));
      LgMonotone(Size(t.right), Size(t));
      RemoveElems(comp, t.left, x);
      RemoveElems(comp, t.right, x);
      if x == t.elem {
        MergeAmortised(comp, t.left, t.right);
      } else if x in Elems(t.left) {
        RemoveAmortised(comp, t.left, x);
        if Size(t.left) == Size(t.right) {
          LgOfLighterChild(Size(t.left), Size(t));
        }
      } else {
        RemoveAmortised(comp, t.right, x);
      }
    }
  }
}
