/** The pointer layer of the skew heap.  Every operation is proved to compute the tree that
    module SkewTree computes, with the parent links of the result in place. */
module SkewHeap {
  import opened SkewTree
  import opened SkewCost

  class Entry {
    var parent: Entry?
    var left: Entry?
    var right: Entry?

    method Init()
      modifies this
      ensures parent == null && left == null && right == null
    {
      left, right, parent := null, null, null;
    }
  }

  type Comparator = (Entry, Entry) -> int

  ghost function Root(t: Tree<Entry>): Entry? {
    match t
    case Leaf => null
    case Node(_, x, _) => x
  }

  /** All nodes except the root. */
  ghost function Below(t: Tree<Entry>): (s: set<Entry>)
    ensures s <= Elems(t)
  {
    match t
    case Leaf => {}
    case Node(l, _, r) => Elems(l) + Elems(r)
  }

  /** The child pointers of every node are those of the tree. */
  ghost predicate Children(t: Tree<Entry>)
    reads Elems(t)`left, Elems(t)`right
  {
    match t
    case Leaf => true
    case Node(l, x, r) => x.left == Root(l) && x.right == Root(r) && Children(l) && Children(r)
  }

  /** Every node except the root has its parent in the tree as its parent field. */
  ghost predicate Parents(t: Tree<Entry>)
    reads Below(t)`parent
  {
    match t
    case Leaf => true
    case Node(l, x, r) =>
      && (l.Node? ==> l.elem.parent == x)
      && (r.Node? ==> r.elem.parent == x)
      && Parents(l) && Parents(r)
  }

  /** `a` points to a tree of nodes; nothing is said of the root's own parent field. */
  ghost predicate Points(a: Entry?, t: Tree<Entry>)
    reads Elems(t)
  {
    a == Root(t) && Distinct(t) && Children(t) && Parents(t)
  }

  /** The state between operations: a well-formed tree whose root has no parent. */
  ghost predicate IsHeap(a: Entry?, t: Tree<Entry>)
    reads Elems(t)
  {
    Points(a, t) && (a != null ==> a.parent == null)
  }

  /** The last lines of both branches of merge: `x` takes `l` and `r` as its children.  The
      parent field of `r` is right already, because `r` was the left child of `x`. */
  method Adopt(x: Entry, l: Entry?, r: Entry?, ghost tl: Tree<Entry>, ghost tr: Tree<Entry>)
    requires Points(l, tl) && Points(r, tr) && Elems(tl) !! Elems(tr)
    requires x !in Elems(tl) && x !in Elems(tr)
    requires r != null ==> r.parent == x
    modifies x`left, x`right, Elems(tl)`parent
    ensures Points(x, Node(tl, x, tr))
  {
    x.left := l;
    x.right := r;
    if l != null {
      assert l !in Below(tl) && l !in Below(tr);
      l.parent := x;
    }
    assert Parents(tl) && Parents(tr);
  }

  /** Merges two disjoint trees.  The parent of the returned node is never written.  The first
      node wins only if the comparator returns -1, so of two equal nodes it is the second; what
      the winner had on its left is on its right afterwards. */
  method Merge(a: Entry?, b: Entry?, comp: Comparator, ghost ta: Tree<Entry>, ghost tb: Tree<Entry>)
    returns (m: Entry?, ghost steps: nat)
    requires Points(a, ta) && Points(b, tb) && Elems(ta) !! Elems(tb)
    modifies Elems(ta) + Elems(tb)
    ensures Points(m, SkewTree.Merge(comp, ta, tb))
    ensures Elems(SkewTree.Merge(comp, ta, tb)) == Elems(ta) + Elems(tb)
    ensures m != null ==> m.parent == old(m.parent)
    ensures a != null && b != null ==> m == (if comp(a, b) == -1 then a else b) && m.right == old(m.left)
    ensures steps == Steps(comp, ta, tb)
    decreases Size(ta) + Size(tb)
  {
    hide Below;
    MergeElems(comp, ta, tb);
    assert allocated(Elems(ta)) && allocated(Elems(tb));
    if a == null {
      return b, 0;
    } else if b == null {
      return a, 0;
    }
    if comp(a, b) == -1 {
      var r := a.left;
      var l;
      MergeElems(comp, ta.right, tb);
      l, steps := Merge(a.right, b, comp, ta.right, tb);
      assert Points(r, ta.left);
      Adopt(a, l, r, SkewTree.Merge(comp, ta.right, tb), ta.left);
      return a, steps + 1;
    } else {
      var r := b.left;
      var l;
      MergeElems(comp, ta, tb.right);
      l, steps := Merge(a, b.right, comp, ta, tb.right);
      assert Points(r, tb.left);
      Adopt(b, l, r, SkewTree.Merge(comp, ta, tb.right), tb.left);
      return b, steps + 1;
    }
  }

  /** Inserts `b`, whatever its three links held before. */
  method Insert(a: Entry?, b: Entry, comp: Comparator, ghost t: Tree<Entry>)
    returns (m: Entry?, ghost steps: nat)
    requires IsHeap(a, t) && b !in Elems(t)
    modifies Elems(t) + {b}
    ensures IsHeap(m, SkewTree.Insert(comp, t, b))
    ensures Elems(SkewTree.Insert(comp, t, b)) == Elems(t) + {b}
    ensures m == if a != null && comp(a, b) == -1 then a else b
    ensures steps == Steps(comp, t, Single(b))
  {
    assert allocated(Elems(t));
    b.Init();
    assert Children(Single(b).left) && Children(Single(b).right);
    assert Parents(Single(b).left) && Parents(Single(b).right);
    m, steps := Merge(a, b, comp, t, Single(b));
  }

  // ----- Removal of an arbitrary node

  /** The subtree rooted at the parent of `b`. */
  ghost function ParentTree(t: Tree<Entry>, b: Entry): (p: Tree<Entry>)
    requires b in Below(t)
    ensures p.Node? && b in Below(p) && (b == Root(p.left) || b == Root(p.right))
    ensures p.elem in Elems(t) && (p == t || p.elem in Below(t))
  {
    if b == Root(t.left) || b == Root(t.right) then t
    else if b in Elems(t.left) then ParentTree(t.left, b)
    else ParentTree(t.right, b)
  }

  /** `c` is well-formed and is attached to `x`. */
  ghost predicate ChildOf(c: Tree<Entry>, x: Entry)
    reads Elems(c)`left, Elems(c)`right, Elems(c)`parent
  {
    Children(c) && Parents(c) && (c.Node? ==> c.elem.parent == x)
  }

  /** All pointers of `t` outside the subtree at `b` are right, leaving out the two child
      pointers of b's parent. */
  ghost predicate Context(t: Tree<Entry>, b: Entry)
    requires Distinct(t) && b in Below(t)
    reads (Elems(t) - Elems(SubtreeAt(t, b)) - {ParentTree(t, b).elem})`left
    reads (Elems(t) - Elems(SubtreeAt(t, b)) - {ParentTree(t, b).elem})`right
    reads (Elems(t) - Elems(SubtreeAt(t, b)))`parent
  {
    var Node(l, x, r) := t;
    assert Elems(SubtreeAt(t, b)) <= if b in Elems(l) then Elems(l) else Elems(r);
    if b == Root(l) then ChildOf(r, x)
    else if b == Root(r) then ChildOf(l, x)
    else
      assert Distinct(l) && Distinct(r);
      assert l.Node? ==> l.elem !in Below(l);
      assert r.Node? ==> r.elem !in Below(r);
      assert Elems(SubtreeAt(t, b)) <= if b in Elems(l) then Below(l) else Below(r);
      && x.left == Root(l) && x.right == Root(r)
      && (l.Node? ==> l.elem.parent == x) && (r.Node? ==> r.elem.parent == x)
      && (if b in Elems(l) then Context(l, b) && Children(r) && Parents(r)
          else Context(r, b) && Children(l) && Parents(l))
  }

  /** In a well-formed tree the subtree at `b` is well-formed too, `b` names its true parent,
      which points back to `b`, and everything around them is right. */
  lemma {:induction false} Locate(t: Tree<Entry>, b: Entry)
    requires Distinct(t) && Children(t) && Parents(t) && b in Elems(t)
    ensures Points(b, SubtreeAt(t, b)) && Elems(SubtreeAt(t, b)) <= Elems(t)
    ensures b != Root(t) ==>
              var above := ParentTree(t, b);
              && b.parent == above.elem && b.parent in Elems(t) - Elems(SubtreeAt(t, b))
              && b.parent.left == Root(above.left) && b.parent.right == Root(above.right)
              && Elems(SubtreeAt(t, b)) <= Below(t)
              && Context(t, b)
  {
    if b in Elems(t.left) {
      Locate(t.left, b);
    } else if b in Elems(t.right) {
      Locate(t.right, b);
    }
  }

  /** Pointing b's parent at `rep` instead of `b` gives the tree without `b`. */
  lemma {:induction false} Plug(comp: Comparator, t: Tree<Entry>, b: Entry, rep: Entry?)
    requires Distinct(t) && b in Below(t) && Context(t, b)
    requires Points(rep, SkewTree.Remove(comp, SubtreeAt(t, b), b))
    requires var above := ParentTree(t, b);
             && (rep != null ==> rep.parent == above.elem)
             && above.elem.left == (if b == Root(above.left) then rep else Root(above.left))
             && above.elem.right == (if b == Root(above.left) then Root(above.right) else rep)
    ensures Children(SkewTree.Remove(comp, t, b)) && Parents(SkewTree.Remove(comp, t, b))
  {
    var Node(l, x, r) := t;
    if b == Root(l) {
      assert SubtreeAt(t, b) == l;
      assert SkewTree.Remove(comp, t, b) == Node(SkewTree.Remove(comp, l, b), x, r);
    } else if b == Root(r) {
      assert SubtreeAt(t, b) == r;
      assert SkewTree.Remove(comp, t, b) == Node(l, x, SkewTree.Remove(comp, r, b));
    } else if b in Elems(l) {
      Plug(comp, l, b, rep);
      assert Root(SkewTree.Remove(comp, l, b)) == Root(l);
    } else {
      Plug(comp, r, b, rep);
      assert Root(SkewTree.Remove(comp, r, b)) == Root(r);
    }
  }

  /** The first lines of removal: the children of `b` merged, under b's own parent. */
  method Replacement(b: Entry, comp: Comparator, ghost sub: Tree<Entry>)
    returns (rep: Entry?, ghost steps: nat)
    requires Points(b, sub)
    modifies Below(sub)
    ensures Points(rep, SkewTree.Merge(comp, sub.left, sub.right))
    ensures Elems(SkewTree.Merge(comp, sub.left, sub.right)) == Below(sub)
    ensures rep != null ==> rep.parent == b.parent
    ensures var l, r := old(b.left), old(b.right);
            rep == if l == null then r else if r == null then l else if comp(l, r) == -1 then l else r
    ensures steps == Steps(comp, sub.left, sub.right)
  {
    rep, steps := Merge(b.left, b.right, comp, sub.left, sub.right);
    if rep != null {
      assert rep !in Below(SkewTree.Merge(comp, sub.left, sub.right));
      rep.parent := b.parent;
    }
  }

  /** The child pointer of `p` that leads to `b` is redirected to `rep`. */
  method Splice(p: Entry, b: Entry, rep: Entry?, ghost comp: Comparator, ghost t: Tree<Entry>)
    requires Distinct(t) && b in Below(t) && Context(t, b)
    requires var above := ParentTree(t, b);
             p == above.elem && p.left == Root(above.left) && p.right == Root(above.right)
    requires Points(rep, SkewTree.Remove(comp, SubtreeAt(t, b), b)) && (rep != null ==> rep.parent == p)
    requires p !in Elems(SubtreeAt(t, b))
    modifies p`left, p`right
    ensures Children(SkewTree.Remove(comp, t, b)) && Parents(SkewTree.Remove(comp, t, b))
    ensures rep == if old(p.left) == b then p.left else p.right
  {
    ghost var above, sub := ParentTree(t, b), SubtreeAt(t, b);
    RemoveElems(comp, sub, b);
    assert p !in Elems(SkewTree.Remove(comp, sub, b));
    if p.left == b {
      p.left := rep;
    } else {
      p.right := rep;
    }
    Plug(comp, t, b, rep);
  }

  /** Removes `b`, given only its pointer, from the heap `a`.  The links of `b` itself stay
      as they were; the pointer that led to it leads to the child the comparator picks. */
  method Remove(a: Entry?, b: Entry, comp: Comparator, ghost t: Tree<Entry>)
    returns (m: Entry?, ghost steps: nat)
    requires IsHeap(a, t) && b in Elems(t)
    modifies Elems(t)
    ensures IsHeap(m, SkewTree.Remove(comp, t, b))
    ensures Elems(SkewTree.Remove(comp, t, b)) == Elems(t) - {b}
    ensures b.parent == old(b.parent) && b.left == old(b.left) && b.right == old(b.right)
    ensures var l, r, p := b.left, b.right, b.parent;
            var rep := if l == null then r else if r == null then l else if comp(l, r) == -1 then l else r;
            if p == null then m == rep
            else m == a && rep == if old(p.left) == b then p.left else p.right
    ensures steps == Steps(comp, SubtreeAt(t, b).left, SubtreeAt(t, b).right) == RemoveSteps(comp, SubtreeAt(t, b))
  {
    ghost var sub := SubtreeAt(t, b);
    Locate(t, b);
    RemoveElems(comp, t, b);
    assert allocated(Elems(t));
    var p := b.parent;
    var rep;
    rep, steps := Replacement(b, comp, sub);
    if p != null {
      assert Context(t, b);
      Splice(p, b, rep, comp, t);
      return a, steps;
    } else {
      return rep, steps;
    }
  }
}
