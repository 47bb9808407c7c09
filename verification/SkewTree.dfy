/** The value layer of the skew heap: binary trees, the self-adjusting merge, and
    removal of an arbitrary element.  The pointer layer (module SkewHeap) refines it. */
module SkewTree {

  datatype Tree<T> = Leaf | Node(left: Tree<T>, elem: T, right: Tree<T>)

  function Size<T>(t: Tree<T>): nat {
    match t
    case Leaf => 0
    case Node(l, _, r) => Size(l) + 1 + Size(r)
  }

  ghost function Elems<T>(t: Tree<T>): set<T> {
    match t
    case Leaf => {}
    case Node(l, x, r) => Elems(l) + {x} + Elems(r)
  }

  /** No element occurs twice. */
  ghost predicate Distinct<T>(t: Tree<T>) {
    match t
    case Leaf => true
    case Node(l, x, r) =>
      x !in Elems(l) && x !in Elems(r) && Elems(l) !! Elems(r) && Distinct(l) && Distinct(r)
  }

  /** The source's only test of the comparator: "less" means exactly -1. */
  predicate Beats<T>(comp: (T, T) -> int, x: T, y: T) {
    comp(x, y) == -1
  }

  function Merge<T>(comp: (T, T) -> int, a: Tree<T>, b: Tree<T>): (m: Tree<T>)
    ensures Size(m) == Size(a) + Size(b)
    decreases Size(a) + Size(b)
  {
    if a.Leaf? then b
    else if b.Leaf? then a
    else if Beats(comp, a.elem, b.elem) then Node(Merge(comp, a.right, b), a.elem, a.left)
    else Node(Merge(comp, a, b.right), b.elem, b.left)
  }

  function Single<T>(x: T): (t: Tree<T>)
    ensures Size(t) == 1 && Elems(t) == {x} && Distinct(t)
  {
    Node(Leaf, x, Leaf)
  }

  function Insert<T>(comp: (T, T) -> int, t: Tree<T>, x: T): Tree<T> {
    Merge(comp, t, Single(x))
  }

  /** The tree with the node holding `x` replaced by the merge of its two children. */
  ghost function Remove<T>(comp: (T, T) -> int, t: Tree<T>, x: T): Tree<T> {
    match t
    case Leaf => Leaf
    case Node(l, y, r) =>
      if x == y then Merge(comp, l, r)
      else if x in Elems(l) then Node(Remove(comp, l, x), y, r)
      else Node(l, y, Remove(comp, r, x))
  }

  /** The subtree rooted at `x`, or Leaf when there is none. */
  ghost function SubtreeAt<T>(t: Tree<T>, x: T): (s: Tree<T>)
    ensures Elems(s) <= Elems(t)
    ensures if x in Elems(t) then s.Node? && s.elem == x else s.Leaf?
    ensures t.Node? && x != t.elem ==> Elems(s) <= Elems(t.left) + Elems(t.right)
    ensures Distinct(t) ==> Distinct(s)
  {
    match t
    case Leaf => Leaf
    case Node(l, y, r) => if x == y then t else if x in Elems(l) then SubtreeAt(l, x) else SubtreeAt(r, x)
  }

  // ----- Contents

  lemma {:induction false} MergeElems<T>(comp: (T, T) -> int, a: Tree<T>, b: Tree<T>)
    ensures Elems(Merge(comp, a, b)) == Elems(a) + Elems(b)
    ensures Distinct(a) && Distinct(b) && Elems(a) !! Elems(b) ==> Distinct(Merge(comp, a, b))
    decreases Size(a) + Size(b)
  {
    if a.Node? && b.Node? {
      if Beats(comp, a.elem, b.elem) {
        MergeElems(comp, a.right, b);
      } else {
        MergeElems(comp, a, b.right);
      }
    }
  }

  /** Removal takes exactly the named element, and nothing when it is absent. */
  lemma {:induction false} RemoveElems<T>(comp: (T, T) -> int, t: Tree<T>, x: T)
    requires Distinct(t)
    ensures Distinct(Remove(comp, t, x))
    ensures Elems(Remove(comp, t, x)) == Elems(t) - {x}
    ensures Size(Remove(comp, t, x)) == Size(t) - if x in Elems(t) then 1 else 0
  {
    if t.Node? {
      if x == t.elem {
        MergeElems(comp, t.left, t.right);
      } else if x in Elems(t.left) {
        RemoveElems(comp, t.left, x);
      } else {
        RemoveElems(comp, t.right, x);
      }
    }
  }

  lemma {:induction false} SizeIsCardinality<T>(t: Tree<T>)
    requires Distinct(t)
    ensures Size(t) == |Elems(t)|
  {
    if t.Node? {
      SizeIsCardinality(t.left);
      SizeIsCardinality(t.right);
      assert |Elems(t.left) + {t.elem}| == |Elems(t.left)| + 1;
      assert |Elems(t.left) + {t.elem} + Elems(t.right)| == |Elems(t.left) + {t.elem}| + |Elems(t.right)|;
    }
  }

  // ----- Heap order

  ghost predicate Asymmetric<T>(comp: (T, T) -> int, s: set<T>) {
    forall x, y | x in s && y in s :: Beats(comp, x, y) ==> !Beats(comp, y, x)
  }

  ghost predicate NegativelyTransitive<T>(comp: (T, T) -> int, s: set<T>) {
    forall x, y, z | x in s && y in s && z in s ::
      !Beats(comp, x, y) && !Beats(comp, y, z) ==> !Beats(comp, x, z)
  }

  /** "Beats" is a strict weak order on `s`. */
  ghost predicate StrictWeakOrder<T>(comp: (T, T) -> int, s: set<T>) {
    Asymmetric(comp, s) && NegativelyTransitive(comp, s)
  }

  /** The root of `t`, if any, does not beat `x`. */
  ghost predicate RootAtOrAfter<T>(comp: (T, T) -> int, t: Tree<T>, x: T) {
    t.Node? ==> !Beats(comp, t.elem, x)
  }

  /** No node beats its parent. */
  ghost predicate Ordered<T>(comp: (T, T) -> int, t: Tree<T>) {
    match t
    case Leaf => true
    case Node(l, x, r) =>
      RootAtOrAfter(comp, l, x) && RootAtOrAfter(comp, r, x) && Ordered(comp, l) && Ordered(comp, r)
  }

  /** Merging keeps heap order; the merged root beats only what one of the two roots beats. */
  lemma {:induction false} MergeOrdered<T>(comp: (T, T) -> int, a: Tree<T>, b: Tree<T>)
    requires Asymmetric(comp, Elems(a) + Elems(b))
    requires Ordered(comp, a) && Ordered(comp, b)
    ensures Ordered(comp, Merge(comp, a, b))
    ensures forall x :: RootAtOrAfter(comp, a, x) && RootAtOrAfter(comp, b, x)
                        ==> RootAtOrAfter(comp, Merge(comp, a, b), x)
    decreases Size(a) + Size(b)
  {
    if a.Node? && b.Node? {
      if Beats(comp, a.elem, b.elem) {
        MergeOrdered(comp, a.right, b);
      } else {
        MergeOrdered(comp, a, b.right);
      }
    }
  }

  /** Removal keeps heap order across the splice: what replaces the removed node does not
      beat any element the old root of the subtree did not beat. */
  lemma {:induction false} RemoveOrdered<T>(comp: (T, T) -> int, t: Tree<T>, x: T)
    requires StrictWeakOrder(comp, Elems(t))
    requires Ordered(comp, t) && x in Elems(t)
    ensures Ordered(comp, Remove(comp, t, x))
    ensures Remove(comp, t, x).Node? ==>
              Remove(comp, t, x).elem in Elems(t) && !Beats(comp, Remove(comp, t, x).elem, t.elem)
  {
    if x == t.elem {
      MergeOrdered(comp, t.left, t.right);
      MergeElems(comp, t.left, t.right);
    } else if x in Elems(t.left) {
      RemoveOrdered(comp, t.left, x);
    } else {
      RemoveOrdered(comp, t.right, x);
    }
  }

  /** For an asymmetric comparator, negative transitivity is exactly what makes removal
      keep heap order in every tree over `s`. */
  lemma RemovalNeedsNegativeTransitivity<T>(comp: (T, T) -> int, s: set<T>)
    requires Asymmetric(comp, s)
    ensures NegativelyTransitive(comp, s) <==>
            forall t: Tree<T>, x | Distinct(t) && Elems(t) <= s && Ordered(comp, t) && x in Elems(t) ::
              Ordered(comp, Remove(comp, t, x))
  {
    if NegativelyTransitive(comp, s) {
      forall t: Tree<T>, x | Distinct(t) && Elems(t) <= s && Ordered(comp, t) && x in Elems(t)
        ensures Ordered(comp, Remove(comp, t, x))
      {
        RemoveOrdered(comp, t, x);
      }
    } else {
      // x, y and z form a chain z - y - x; splicing out y puts x under z.
      var x, y, z :| x in s && y in s && z in s &&
                     !Beats(comp, x, y) && !Beats(comp, y, z) && Beats(comp, x, z);
      var bottom := Node(Leaf, x, Leaf);
      var middle := Node(bottom, y, Leaf);
      assert Elems(bottom) == {x} && Elems(middle) == {x, y};
      assert Distinct(bottom) && Distinct(middle);
      assert Ordered(comp, bottom) && Ordered(comp, middle);
      var t := Node(middle, z, Leaf);
      assert Elems(t) == {x, y, z} <= s;
      assert Distinct(t) && Ordered(comp, t);
      assert Remove(comp, t, y) == Node(bottom, z, Leaf);
      assert !Ordered(comp, Remove(comp, t, y));
    }
  }

  /** In an ordered tree nothing beats the root. */
  lemma {:induction false} RootIsUnbeaten<T>(comp: (T, T) -> int, t: Tree<T>)
    requires StrictWeakOrder(comp, Elems(t)) && Ordered(comp, t) && t.Node?
    ensures forall x | x in Elems(t) :: !Beats(comp, x, t.elem)
  {
    if t.left.Node? {
      RootIsUnbeaten(comp, t.left);
    }
    if t.right.Node? {
      RootIsUnbeaten(comp, t.right);
    }
  }

  /** Heap order looks at the comparator on the elements of the tree only. */
  lemma {:induction false} OrderedCongruence<T>(comp: (T, T) -> int, other: (T, T) -> int, t: Tree<T>)
    requires forall x, y | x in Elems(t) && y in Elems(t) :: Beats(comp, x, y) == Beats(other, x, y)
    requires Ordered(comp, t)
    ensures Ordered(other, t)
  {
    if t.Node? {
      OrderedCongruence(comp, other, t.left);
      OrderedCongruence(comp, other, t.right);
    }
  }
}
