/** eval_tree_within_budget (harnesses/eval.c): the bound on what is walked
    after parsing, on R objects that may share and form cycles. */
module TreeBound {

  const MAX_DEPTH := 64
  const MAX_NODES := 1024

  type Ref = nat

  /** R_NilValue, a LANGSXP or LISTSXP cell, an EXPRSXP, or anything else. */
  datatype Obj =
    | Nil
    | Cell(car: Ref, cdr: Ref)
    | Exprs(elems: seq<Ref>)
    | Other

  /** Objects by reference.  Every reference points somewhere, and the CDR of a
      cell is a cell or R_NilValue. */
  type Heap = map<Ref, Obj>

  ghost predicate WellFormed(h: Heap) {
    forall x :: x in h ==>
      match h[x]
      case Cell(car, cdr) => car in h && cdr in h && (h[cdr].Cell? || h[cdr].Nil?)
      case Exprs(elems) => forall i :: 0 <= i < |elems| ==> elems[i] in h
      case _ => true
  }

  // ---------- what the walk amounts to on a tree

  /** The tree a graph unfolds to from some object, if it does: a pairlist is
      one node however long it is. */
  datatype Tree = Leaf | Pairlist(cars: seq<Tree>) | Expressions(kids: seq<Tree>)

  ghost predicate Unfolds(h: Heap, x: Ref, t: Tree)
    requires WellFormed(h) && x in h
    decreases t, 0
  {
    match h[x]
    case Cell(_, _) => t.Pairlist? && UnfoldsCells(h, x, t.cars)
    case Exprs(elems) => t.Expressions? && UnfoldsAll(h, elems, t.kids)
    case _ => t == Leaf
  }

  ghost predicate UnfoldsCells(h: Heap, p: Ref, ts: seq<Tree>)
    requires WellFormed(h) && p in h && (h[p].Cell? || h[p].Nil?)
    decreases ts, 1
  {
    if h[p].Nil? then ts == []
    else ts != [] && Unfolds(h, h[p].car, ts[0]) && UnfoldsCells(h, h[p].cdr, ts[1..])
  }

  ghost predicate UnfoldsAll(h: Heap, xs: seq<Ref>, ts: seq<Tree>)
    requires WellFormed(h) && forall i :: 0 <= i < |xs| ==> xs[i] in h
    decreases ts, 1
  {
    if xs == [] then ts == []
    else ts != [] && Unfolds(h, xs[0], ts[0]) && UnfoldsAll(h, xs[1..], ts[1..])
  }

  /** Nodes counted for a tree: one per object, one more per pairlist cell. */
  function Cost(t: Tree): nat {
    match t
    case Leaf => 1
    case Pairlist(cars) => 1 + |cars| + CostAll(cars)
    case Expressions(kids) => 1 + CostAll(kids)
  }

  function CostAll(ts: seq<Tree>): nat {
    if ts == [] then 0 else Cost(ts[0]) + CostAll(ts[1..])
  }

  function Height(t: Tree): nat {
    match t
    case Leaf => 0
    case Pairlist(cars) => if cars == [] then 0 else 1 + HeightAll(cars)
    case Expressions(kids) => if kids == [] then 0 else 1 + HeightAll(kids)
  }

  function Max(a: nat, b: nat): nat { if a < b then b else a }

  function HeightAll(ts: seq<Tree>): nat {
    if ts == [] then 0 else Max(Height(ts[0]), HeightAll(ts[1..]))
  }

  /** The tree fits: from `nodes` counted so far, at `depth`. */
  predicate Fits(t: Tree, depth: nat, nodes: nat) {
    nodes + Cost(t) <= 1024 && depth + Height(t) <= 64
  }

  // ---------- trees are unique

  lemma {:induction false} UnfoldingIsUnique(h: Heap, x: Ref, t: Tree, u: Tree)
    requires WellFormed(h) && x in h && Unfolds(h, x, t) && Unfolds(h, x, u)
    ensures t == u
    decreases t, 0
  {
    match h[x]
    case Cell(_, _) => CellsUnique(h, x, t.cars, u.cars);
    case Exprs(elems) => AllUnique(h, elems, t.kids, u.kids);
    case _ =>
  }

  lemma {:induction false} CellsUnique(h: Heap, p: Ref, ts: seq<Tree>, us: seq<Tree>)
    requires WellFormed(h) && p in h && (h[p].Cell? || h[p].Nil?)
    requires UnfoldsCells(h, p, ts) && UnfoldsCells(h, p, us)
    ensures ts == us
    decreases ts, 1
  {
    if h[p].Cell? {
      UnfoldingIsUnique(h, h[p].car, ts[0], us[0]);
      CellsUnique(h, h[p].cdr, ts[1..], us[1..]);
    }
  }

  lemma {:induction false} AllUnique(h: Heap, xs: seq<Ref>, ts: seq<Tree>, us: seq<Tree>)
    requires WellFormed(h) && forall i :: 0 <= i < |xs| ==> xs[i] in h
    requires UnfoldsAll(h, xs, ts) && UnfoldsAll(h, xs, us)
    ensures ts == us
    decreases ts, 1
  {
    if xs != [] {
      UnfoldingIsUnique(h, xs[0], ts[0], us[0]);
      AllUnique(h, xs[1..], ts[1..], us[1..]);
    }
  }

  lemma {:induction false} CostAllConcat(a: seq<Tree>, b: seq<Tree>)
    ensures CostAll(a + b) == CostAll(a) + CostAll(b)
    ensures HeightAll(a + b) == Max(HeightAll(a), HeightAll(b))
  {
    if a == [] {
      assert a + b == b;
    } else {
      assert (a + b)[1..] == a[1..] + b;
      CostAllConcat(a[1..], b);
    }
  }

  ghost predicate Completes(h: Heap, x: Ref, p: Ref, done: seq<Tree>)
    requires WellFormed(h) && x in h && p in h && (h[x].Cell? || h[x].Nil?) && (h[p].Cell? || h[p].Nil?)
  {
    forall ts :: UnfoldsCells(h, p, ts) ==> UnfoldsCells(h, x, done + ts)
  }

  ghost predicate Begins(h: Heap, x: Ref, p: Ref, done: seq<Tree>)
    requires WellFormed(h) && x in h && p in h && (h[x].Cell? || h[x].Nil?) && (h[p].Cell? || h[p].Nil?)
  {
    forall ts :: UnfoldsCells(h, x, ts) ==>
      |ts| >= |done| && ts[..|done|] == done && UnfoldsCells(h, p, ts[|done|..])
  }

  /** The walk has covered the cells from x up to p, with these trees: what
      follows completes them, and they are the only way to begin. */
  ghost predicate Walked(h: Heap, x: Ref, p: Ref, done: seq<Tree>)
    requires WellFormed(h) && x in h && p in h && (h[x].Cell? || h[x].Nil?) && (h[p].Cell? || h[p].Nil?)
  {
    Completes(h, x, p, done) && Begins(h, x, p, done)
  }

  lemma WalkedNothing(h: Heap, x: Ref)
    requires WellFormed(h) && x in h && (h[x].Cell? || h[x].Nil?)
    ensures Walked(h, x, x, [])
  {
    assert forall ts: seq<Tree> :: [] + ts == ts;
    assert forall ts: seq<Tree> :: ts[0..] == ts;
  }

  lemma Split(ts: seq<Tree>, done: seq<Tree>, t: Tree)
    requires |ts| > |done| && ts[..|done|] == done && ts[|done|] == t
    ensures ts[..|done| + 1] == done + [t] && ts[|done|..][1..] == ts[|done| + 1..]
  {
  }

  lemma Join(done: seq<Tree>, t: Tree, ts: seq<Tree>)
    ensures done + [t] + ts == done + ([t] + ts) && ([t] + ts)[1..] == ts
  {
  }

  lemma CompletesOneMore(h: Heap, x: Ref, p: Ref, done: seq<Tree>, t: Tree)
    requires WellFormed(h) && x in h && p in h && h[x].Cell? && h[p].Cell?
    requires Completes(h, x, p, done) && Unfolds(h, h[p].car, t)
    ensures Completes(h, x, h[p].cdr, done + [t])
  {
    forall ts | UnfoldsCells(h, h[p].cdr, ts) ensures UnfoldsCells(h, x, done + [t] + ts) {
      Join(done, t, ts);
      assert UnfoldsCells(h, p, [t] + ts);
    }
  }

  lemma BeginsOneMore(h: Heap, x: Ref, p: Ref, done: seq<Tree>, t: Tree)
    requires WellFormed(h) && x in h && p in h && h[x].Cell? && h[p].Cell?
    requires Begins(h, x, p, done) && Unfolds(h, h[p].car, t)
    ensures Begins(h, x, h[p].cdr, done + [t])
  {
    forall ts | UnfoldsCells(h, x, ts)
      ensures |ts| >= |done| + 1 && ts[..|done| + 1] == done + [t] && UnfoldsCells(h, h[p].cdr, ts[|done| + 1..])
    {
      assert UnfoldsCells(h, p, ts[|done|..]);
      UnfoldingIsUnique(h, h[p].car, ts[|done|], t);
      Split(ts, done, t);
    }
  }

  lemma WalkedOneMore(h: Heap, x: Ref, p: Ref, done: seq<Tree>, t: Tree)
    requires WellFormed(h) && x in h && p in h && h[x].Cell? && h[p].Cell?
    requires Walked(h, x, p, done) && Unfolds(h, h[p].car, t)
    ensures Walked(h, x, h[p].cdr, done + [t])
  {
    hide Completes, Begins, Unfolds;
    CompletesOneMore(h, x, p, done, t);
    BeginsOneMore(h, x, p, done, t);
  }

  /** The same over the elements of an expression vector. */
  ghost predicate WalkedElems(h: Heap, xs: seq<Ref>, i: nat, done: seq<Tree>)
    requires WellFormed(h) && i <= |xs| && forall k :: 0 <= k < |xs| ==> xs[k] in h
  {
    && (forall ts :: UnfoldsAll(h, xs[i..], ts) ==> UnfoldsAll(h, xs, done + ts))
    && (forall ts :: UnfoldsAll(h, xs, ts) ==>
          |ts| >= |done| && ts[..|done|] == done && UnfoldsAll(h, xs[i..], ts[|done|..]))
  }

  lemma WalkedNoElem(h: Heap, xs: seq<Ref>)
    requires WellFormed(h) && forall k :: 0 <= k < |xs| ==> xs[k] in h
    ensures WalkedElems(h, xs, 0, [])
  {
    assert xs[0..] == xs;
    assert forall ts: seq<Tree> :: [] + ts == ts;
    assert forall ts: seq<Tree> :: ts[0..] == ts;
  }

  lemma WalkedOneMoreElem(h: Heap, xs: seq<Ref>, i: nat, done: seq<Tree>, t: Tree)
    requires WellFormed(h) && i < |xs| && forall k :: 0 <= k < |xs| ==> xs[k] in h
    requires WalkedElems(h, xs, i, done) && Unfolds(h, xs[i], t)
    ensures WalkedElems(h, xs, i + 1, done + [t])
  {
    assert xs[i..][1..] == xs[i + 1..];
    forall ts | UnfoldsAll(h, xs[i + 1..], ts) ensures UnfoldsAll(h, xs, done + [t] + ts) {
      Join(done, t, ts);
      assert UnfoldsAll(h, xs[i..], [t] + ts);
    }
    forall ts | UnfoldsAll(h, xs, ts)
      ensures |ts| >= |done| + 1 && ts[..|done| + 1] == done + [t] && UnfoldsAll(h, xs[i + 1..], ts[|done| + 1..])
    {
      assert UnfoldsAll(h, xs[i..], ts[|done|..]);
      UnfoldingIsUnique(h, xs[i], ts[|done|], t);
      Split(ts, done, t);
    }
  }

  lemma WalkedAllCells(h: Heap, x: Ref, p: Ref, done: seq<Tree>)
    requires WellFormed(h) && x in h && p in h && h[x].Cell? && h[p].Nil? && Walked(h, x, p, done)
    ensures Unfolds(h, x, Pairlist(done))
  {
    assert UnfoldsCells(h, p, []);
    assert done + [] == done;
  }

  lemma WalkedAllElems(h: Heap, x: Ref, xs: seq<Ref>, done: seq<Tree>)
    requires WellFormed(h) && x in h && h[x] == Exprs(xs) && WalkedElems(h, xs, |xs|, done)
    ensures Unfolds(h, x, Expressions(done))
  {
    assert UnfoldsAll(h, xs[|xs|..], []);
    assert done + [] == done;
  }

  /** The tree walked so far fits, and the counter has risen by its cost. */
  predicate Counted(t: Tree, depth: nat, start: nat, nodes: nat) {
    Fits(t, depth, start) && nodes == start + Cost(t)
  }

  lemma CountedOneMore(done: seq<Tree>, kid: Tree, depth: nat, start: nat, nodes: nat)
    ensures Counted(Pairlist(done), depth, start, nodes) && Counted(kid, depth + 1, nodes + 1, nodes + 1 + Cost(kid))
            ==> Counted(Pairlist(done + [kid]), depth, start, nodes + 1 + Cost(kid))
    ensures Counted(Expressions(done), depth, start, nodes) && Counted(kid, depth + 1, nodes, nodes + Cost(kid))
            ==> Counted(Expressions(done + [kid]), depth, start, nodes + Cost(kid))
  {
    CostAllConcat(done, [kid]);
  }

  // ---------- the walk

  class Counter {
    var nodes: nat
    constructor (n: nat)
      ensures nodes == n
    {
      nodes := n;
    }
  }

  lemma CostPositive()
    ensures forall u: Tree :: Cost(u) >= 1
  {
  }

  lemma TooManyCells(h: Heap, x: Ref, p: Ref, done: seq<Tree>, depth: nat, start: nat)
    requires WellFormed(h) && x in h && p in h && h[x].Cell? && h[p].Cell?
    requires Walked(h, x, p, done) && start + 1 + |done| + CostAll(done) >= MAX_NODES
    ensures forall u :: Unfolds(h, x, u) ==> !Fits(u, depth, start)
  {
    forall u | Unfolds(h, x, u) ensures !Fits(u, depth, start) {
      var rest := u.cars[|done|..];
      assert UnfoldsCells(h, p, rest);
      assert u.cars == done + rest;
      CostAllConcat(done, rest);
    }
  }

  lemma CarDoesNotFit(h: Heap, x: Ref, p: Ref, done: seq<Tree>, depth: nat, start: nat)
    requires WellFormed(h) && x in h && p in h && h[x].Cell? && h[p].Cell? && Walked(h, x, p, done)
    requires forall t :: Unfolds(h, h[p].car, t) ==> !Fits(t, depth + 1, start + 1 + |done| + CostAll(done) + 1)
    ensures forall u :: Unfolds(h, x, u) ==> !Fits(u, depth, start)
  {
    forall u | Unfolds(h, x, u) ensures !Fits(u, depth, start) {
      var rest := u.cars[|done|..];
      assert UnfoldsCells(h, p, rest);
      assert u.cars == done + rest;
      CostAllConcat(done, rest);
      assert Unfolds(h, h[p].car, rest[0]);
    }
  }

  lemma ElemDoesNotFit(h: Heap, x: Ref, xs: seq<Ref>, i: nat, done: seq<Tree>, depth: nat, start: nat)
    requires WellFormed(h) && x in h && h[x] == Exprs(xs) && i < |xs| && WalkedElems(h, xs, i, done)
    requires forall t :: Unfolds(h, xs[i], t) ==> !Fits(t, depth + 1, start + 1 + CostAll(done))
    ensures forall u :: Unfolds(h, x, u) ==> !Fits(u, depth, start)
  {
    forall u | Unfolds(h, x, u) ensures !Fits(u, depth, start) {
      var rest := u.kids[|done|..];
      assert UnfoldsAll(h, xs[i..], rest);
      assert u.kids == done + rest;
      CostAllConcat(done, rest);
      assert xs[i..][0] == xs[i];
    }
  }

  /** The walk accepts an object exactly when it unfolds to a finite tree that
      fits, whatever sharing and cycles there are; accepting it, it has counted
      exactly that tree.  It always ends, and counts at most one node past the
      limit. */
  method WithinBudget(h: Heap, x: Ref, depth: nat, c: Counter) returns (ok: bool, ghost t: Tree)
    requires WellFormed(h) && x in h
    modifies c
    ensures ok ==> Unfolds(h, x, t) && Fits(t, depth, old(c.nodes)) && c.nodes == old(c.nodes) + Cost(t)
    ensures !ok ==> forall u :: Unfolds(h, x, u) ==> !Fits(u, depth, old(c.nodes))
    ensures old(c.nodes) <= c.nodes <= Max(old(c.nodes), 1024) + 1
    decreases MAX_DEPTH + 1 - depth
  {
    hide Walked, WalkedElems, UnfoldsCells, UnfoldsAll;
    t := Leaf;
    if depth > MAX_DEPTH {
      return false, Leaf;
    }
    ghost var start := c.nodes;
    c.nodes := c.nodes + 1;
    if c.nodes > MAX_NODES {
      CostPositive();
      return false, Leaf;
    }
    match h[x]
    case Cell(_, _) =>
      ghost var done: seq<Tree> := [];
      var p := x;
      WalkedNothing(h, x);
      while !h[p].Nil?
        invariant p in h && (h[p].Cell? || h[p].Nil?) && h[x].Cell?
        invariant Walked(h, x, p, done)
        invariant Counted(Pairlist(done), depth, start, c.nodes)
        decreases MAX_NODES - c.nodes
      {
        c.nodes := c.nodes + 1;
        if c.nodes > MAX_NODES {
          TooManyCells(h, x, p, done, depth, start);
          return false, Leaf;
        }
        var within, kid := WithinBudget(h, h[p].car, depth + 1, c);
        if !within {
          CarDoesNotFit(h, x, p, done, depth, start);
          return false, Leaf;
        }
        WalkedOneMore(h, x, p, done, kid);
        CountedOneMore(done, kid, depth, start, start + Cost(Pairlist(done)));
        done := done + [kid];
        p := h[p].cdr;
      }
      WalkedAllCells(h, x, p, done);
      return true, Pairlist(done);
    case Exprs(elems) =>
      ghost var done: seq<Tree> := [];
      var i := 0;
      WalkedNoElem(h, elems);
      while i < |elems|
        invariant i <= |elems| && h[x] == Exprs(elems)
        invariant WalkedElems(h, elems, i, done)
        invariant Counted(Expressions(done), depth, start, c.nodes)
      {
        var within, kid := WithinBudget(h, elems[i], depth + 1, c);
        if !within {
          ElemDoesNotFit(h, x, elems, i, done, depth, start);
          return false, Leaf;
        }
        WalkedOneMoreElem(h, elems, i, done, kid);
        CountedOneMore(done, kid, depth, start, start + Cost(Expressions(done)));
        done := done + [kid];
        i := i + 1;
      }
      WalkedAllElems(h, x, elems, done);
      return true, Expressions(done);
    case _ =>
      return true, Leaf;
  }

  // ---------- cycles

  predicate Child(h: Heap, x: Ref, y: Ref)
    requires x in h
  {
    match h[x]
    case Cell(car, cdr) => y == car || y == cdr
    case Exprs(elems) => y in elems
    case _ => false
  }

  predicate Path(h: Heap, p: seq<Ref>) {
    && p != [] && (forall i :: 0 <= i < |p| ==> p[i] in h)
    && forall i :: 0 <= i < |p| - 1 ==> Child(h, p[i], p[i + 1])
  }

  lemma {:induction false} ElemUnfolds(h: Heap, xs: seq<Ref>, ts: seq<Tree>, y: Ref) returns (u: Tree)
    requires WellFormed(h) && (forall i :: 0 <= i < |xs| ==> xs[i] in h)
    requires UnfoldsAll(h, xs, ts) && y in xs
    ensures Unfolds(h, y, u) && Cost(u) <= CostAll(ts)
  {
    if y == xs[0] {
      return ts[0];
    }
    u := ElemUnfolds(h, xs[1..], ts[1..], y);
  }

  /** What an object refers to unfolds to a smaller tree. */
  lemma ChildUnfolds(h: Heap, x: Ref, t: Tree, y: Ref) returns (u: Tree)
    requires WellFormed(h) && x in h && Unfolds(h, x, t) && Child(h, x, y)
    ensures Unfolds(h, y, u) && Cost(u) < Cost(t)
  {
    match h[x]
    case Cell(car, cdr) =>
      if y == car {
        return t.cars[0];
      }
      return if h[cdr].Nil? then Leaf else Pairlist(t.cars[1..]);
    case Exprs(elems) => u := ElemUnfolds(h, elems, t.kids, y);
  }

  lemma {:induction false} PathUnfolds(h: Heap, p: seq<Ref>, t: Tree) returns (u: Tree)
    requires WellFormed(h) && Path(h, p) && Unfolds(h, p[0], t)
    ensures Unfolds(h, p[|p| - 1], u) && Cost(u) + |p| - 1 <= Cost(t)
  {
    if |p| == 1 {
      return t;
    }
    var next := ChildUnfolds(h, p[0], t, p[1]);
    u := PathUnfolds(h, p[1..], next);
  }

  /** An object from which some object can be reached twice along a path
      unfolds to no tree, so the walk refuses it. */
  lemma CyclesDoNotUnfold(h: Heap, p: seq<Ref>, i: nat, j: nat, t: Tree)
    requires WellFormed(h) && Path(h, p) && i < j < |p| && p[i] == p[j]
    ensures !Unfolds(h, p[0], t)
  {
    if Unfolds(h, p[0], t) {
      var u := PathUnfolds(h, p[..i + 1], t);
      var v := PathUnfolds(h, p[i..j + 1], u);
      UnfoldingIsUnique(h, p[i], u, v);
    }
  }
}
