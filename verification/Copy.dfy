/** Whole-map copy: counting both trees, making room, and cloning cell by cell with two stacks. */
module Copy {
  import opened Powers
  import opened Bins
  import opened Trees
  import opened Cells
  import opened BinMaps

  /** The cells of a tree renamed by a map. */
  function Renamed(t: Tree, ren: map<nat, nat>): Tree
    requires Refs(t) <= ren.Keys
  {
    Node(ren[t.ref],
         if t.left.Sub? then Sub(Renamed(t.left.t, ren)) else t.left,
         if t.right.Sub? then Sub(Renamed(t.right.t, ren)) else t.right)
  }

  ghost predicate Injective(ren: map<nat, nat>) {
    forall a, b :: a in ren && b in ren && ren[a] == ren[b] ==> a == b
  }

  /** A half of a source cell as the copy has it. */
  function RenamedHalf(h: CellHalf, ren: map<nat, nat>): CellHalf {
    match h
    case Bitmap(w) => h
    case Ref(r) => if r in ren then Ref(ren[r]) else h
  }

  lemma {:induction false} RenamedShape(t: Tree, ren: map<nat, nat>)
    requires Refs(t) <= ren.Keys
    ensures SameShape(t, Renamed(t, ren))
    decreases t
  {
    if t.left.Sub? {
      RenamedShape(t.left.t, ren);
    }
    if t.right.Sub? {
      RenamedShape(t.right.t, ren);
    }
  }

  lemma {:induction false} RenamedRefs(t: Tree, ren: map<nat, nat>)
    requires Refs(t) <= ren.Keys && Injective(ren) && NoSharing(t)
    ensures NoSharing(Renamed(t, ren))
    ensures forall d: nat :: d in Refs(Renamed(t, ren)) <==> exists r :: r in Refs(t) && ren[r] == d
    decreases t
  {
    if t.left.Sub? {
      RenamedRefs(t.left.t, ren);
    }
    if t.right.Sub? {
      RenamedRefs(t.right.t, ren);
    }
  }

  /** Trees of one shape stand for one set and are canonical together. */
  lemma {:induction false} ShapeHas(t: Tree, u: Tree, b: Bin, i: nat)
    requires SameShape(t, u)
    ensures TreeHas(t, b, i) <==> TreeHas(u, b, i)
    decreases t
  {
    if b.layer > 0 {
      var h, k := HalfToward(t, b, i), HalfToward(u, b, i);
      assert SameHalf(h, k);
      if h.Sub? && k.Sub? {
        ShapeHas(h.t, k.t, b.Toward(i), i);
      }
    }
  }

  lemma {:induction false} ShapeKept(t: Tree, u: Tree, l: nat)
    requires SameShape(t, u)
    ensures Fits(t, l) ==> Fits(u, l)
    ensures Canonical(t) ==> Canonical(u)
    ensures Uniform(t) <==> Uniform(u)
    decreases t
  {
    if t.left.Sub? && u.left.Sub? {
      ShapeKept(t.left.t, u.left.t, if l > 0 then l - 1 else 0);
    }
    if t.right.Sub? && u.right.Sub? {
      ShapeKept(t.right.t, u.right.t, if l > 0 then l - 1 else 0);
    }
  }

  // ------------------------------------------------------------------
  // The stacks

  ghost function Sizes(ts: seq<Tree>): nat {
    if ts == [] then 0 else Sizes(ts[..|ts| - 1]) + Size(ts[|ts| - 1])
  }

  lemma SizesPush(ts: seq<Tree>, t: Tree)
    ensures Sizes(ts + [t]) == Sizes(ts) + Size(t)
  {
    assert (ts + [t])[..|ts|] == ts;
  }

  /** The entries of a stack of cells are trees held by the cells, each some layers below the root: at most 58 of them. */
  ghost predicate Stacked(cells: seq<Cell>, stack: seq<nat>, ts: seq<Tree>, top: nat) {
    |ts| == |stack| &&
    forall k :: 0 <= k < |ts| ==> ts[k].ref == stack[k] && Holds(cells, ts[k]) && top >= k && Fits(ts[k], top - k)
  }

  /** The stack after a node is replaced by its children. */
  function Unfold(ts: seq<Tree>): seq<Tree>
    requires ts != []
  {
    var t := ts[|ts| - 1];
    ts[..|ts| - 1] + (if t.left.Sub? then [t.left.t] else []) + (if t.right.Sub? then [t.right.t] else [])
  }

  lemma UnfoldSizes(ts: seq<Tree>)
    requires ts != []
    ensures Sizes(Unfold(ts)) == Sizes(ts) - 1
  {
    hide Size;
    var t, rest := ts[|ts| - 1], ts[..|ts| - 1];
    SizeParts(t);
    if t.left.Sub? && t.right.Sub? {
      SizesPush(rest, t.left.t);
      SizesPush(rest + [t.left.t], t.right.t);
      assert Unfold(ts) == rest + [t.left.t] + [t.right.t];
    } else if t.left.Sub? {
      SizesPush(rest, t.left.t);
      assert Unfold(ts) == rest + [t.left.t];
    } else if t.right.Sub? {
      SizesPush(rest, t.right.t);
      assert Unfold(ts) == rest + [t.right.t];
    } else {
      assert Unfold(ts) == rest;
    }
  }

  lemma SizeParts(t: Tree)
    ensures Size(t) == 1 + (if t.left.Sub? then Size(t.left.t) else 0) + (if t.right.Sub? then Size(t.right.t) else 0)
  {
  }

  lemma UnfoldStacked(cells: seq<Cell>, stack: seq<nat>, ts: seq<Tree>, top: nat)
    requires Stacked(cells, stack, ts, top) && stack != []
    ensures var t := ts[|ts| - 1];
      var s := stack[..|stack| - 1] + (if t.left.Sub? then [t.left.t.ref] else []) + (if t.right.Sub? then [t.right.t.ref] else []);
      Stacked(cells, s, Unfold(ts), top)
  {
    var t := ts[|ts| - 1];
    var s := stack[..|stack| - 1] + (if t.left.Sub? then [t.left.t.ref] else []) + (if t.right.Sub? then [t.right.t.ref] else []);
    var us := Unfold(ts);
    var n := |ts| - 1;
    if t.left.Sub? {
      FitsHigher(t.left.t, top - n - 1);
    }
    if t.right.Sub? {
      FitsHigher(t.right.t, top - n - 1);
    }
    forall k | 0 <= k < |us| ensures us[k].ref == s[k] && Holds(cells, us[k]) && top >= k && Fits(us[k], top - k) {
      if k < n {
        assert us[k] == ts[k];
      }
    }
  }

  lemma {:induction false} FitsHigher(t: Tree, l: nat)
    requires Fits(t, l)
    ensures Fits(t, l + 1)
    decreases t
  {
    if t.left.Sub? {
      FitsHigher(t.left.t, l - 1);
    }
    if t.right.Sub? {
      FitsHigher(t.right.t, l - 1);
    }
  }

  /** The number of cells of a map, counted with a stack. */
  method CountCells(m: BinMap) returns (size: nat)
    requires m.Valid()
    ensures size == Size(m.tree) == m.taken
  {
    hide Size, Refs, NoSharing, Holds, Fits, CanonicalHalf, Chain, Distinct, P, Sizes;
    m.StoreCount(Refs(m.tree));
    SizeIsCount(m.tree);
    size := 0;
    var stack := [ROOT_REF];
    ghost var ts := [m.tree];
    SizesPush([], m.tree);
    assert Sizes([]) == 0 by { NoSizes(); }
    assert [] + [m.tree] == ts;
    while stack != []
      invariant Stacked(m.cells, stack, ts, m.root.layer)
      invariant size + Sizes(ts) == Size(m.tree)
      invariant |stack| <= 64
      decreases Sizes(ts)
    {
      ghost var t := ts[|ts| - 1];
      TopCell(m.cells, t, m.root.layer - (|ts| - 1));
      size := size + 1;
      var cell := m.cells[stack[|stack| - 1]];
      UnfoldSizes(ts);
      UnfoldStacked(m.cells, stack, ts, m.root.layer);
      stack := stack[..|stack| - 1] + (if cell.left.Ref? then [cell.left.r] else []) + (if cell.right.Ref? then [cell.right.r] else []);
      ts := Unfold(ts);
    }
    NoSizes();
  }

  lemma NoSizes()
    ensures Sizes([]) == 0
  {
  }

  lemma TopCell(cells: seq<Cell>, t: Tree, l: nat)
    requires Holds(cells, t) && Fits(t, l)
    ensures l >= 6 && t.ref < |cells| && cells[t.ref] == Used(Resolve(t.left), Resolve(t.right))
  {
  }

  // ------------------------------------------------------------------
  // Cloning

  /** The trees on the stack occupy different cells. */
  ghost predicate Apart(ts: seq<Tree>) {
    (forall k :: 0 <= k < |ts| ==> NoSharing(ts[k])) &&
    forall j, k :: 0 <= j < k < |ts| ==> Refs(ts[j]) !! Refs(ts[k])
  }

  lemma UnfoldApart(ts: seq<Tree>)
    requires ts != [] && Apart(ts)
    ensures Apart(Unfold(ts))
    ensures forall u :: u in Unfold(ts) ==> ts[|ts| - 1].ref !in Refs(u)
  {
    hide P;
    var t, n, us := ts[|ts| - 1], |ts| - 1, Unfold(ts);
    assert forall k :: 0 <= k < n ==> us[k] == ts[k] && Refs(us[k]) !! Refs(t);
    assert forall k :: n <= k < |us| ==> Refs(us[k]) <= Refs(t) && t.ref !in Refs(us[k]) && NoSharing(us[k]);
    assert t.ref in Refs(t);
    forall j, k | 0 <= j < k < |us| ensures Refs(us[j]) !! Refs(us[k]) {
      if k < n {
        assert us[j] == ts[j] && us[k] == ts[k];
      } else if j >= n {
        assert us[j] == t.left.t && us[k] == t.right.t;
      }
    }
  }

  /** A source cell that is copied: its children have their cells in the copy, and its own cell refers to those. */
  ghost predicate Copied(r: nat, from: seq<Cell>, to: seq<Cell>, ren: map<nat, nat>) {
    r in ren && r < |from| && from[r].Used? &&
    (from[r].left.Ref? ==> from[r].left.r in ren) && (from[r].right.Ref? ==> from[r].right.r in ren) &&
    ren[r] < |to| && to[ren[r]] == Used(RenamedHalf(from[r].left, ren), RenamedHalf(from[r].right, ren))
  }

  /** The state of the copy: every cell reached has its place; the ones on the stack still have to be filled in. */
  ghost predicate Cloning(from: seq<Cell>, to: seq<Cell>, ts: seq<Tree>, dstack: seq<nat>, ren: map<nat, nat>, done: set<nat>) {
    |dstack| == |ts| && Apart(ts) && Injective(ren) &&
    ROOT_REF in ren && ren[ROOT_REF] == ROOT_REF &&
    (forall k :: 0 <= k < |ts| ==> Holds(from, ts[k]) && ts[k].ref in ren && ren[ts[k].ref] == dstack[k] && ts[k].ref !in done) &&
    (forall k :: 0 <= k < |ts| ==> Refs(ts[k]) * ren.Keys <= {ts[k].ref}) &&
    (forall r :: r in done ==> Copied(r, from, to, ren)) &&
    (forall r :: r in ren ==> r in done || exists k :: 0 <= k < |ts| && ts[k].ref == r)
  }

  lemma {:induction false} SizesAtLeast(ts: seq<Tree>)
    ensures Sizes(ts) >= |ts|
    decreases |ts|
  {
    if ts != [] {
      SizesAtLeast(ts[..|ts| - 1]);
    }
  }

  lemma AddPlace(ren: map<nat, nat>, q: nat, v: nat)
    requires Injective(ren) && q !in ren && v !in ren.Values
    ensures Injective(ren[q := v])
    ensures ren[q := v].Values == ren.Values + {v} && ren[q := v].Keys == ren.Keys + {q}
    ensures forall p :: p in ren ==> ren[q := v][p] == ren[p]
  {
    var b := ren[q := v];
    assert b[q] == v;
    forall u ensures u in b.Values <==> u in ren.Values + {v} {
      if u in ren.Values {
        var p :| p in ren && ren[p] == u;
        assert b[p] == u;
      }
    }
  }

  /** The children of a node get places in the copy. */
  function Extend(ren: map<nat, nat>, t: Tree, l: nat, r: nat): map<nat, nat> {
    var a := if t.left.Sub? then ren[t.left.t.ref := l] else ren;
    if t.right.Sub? then a[t.right.t.ref := r] else a
  }

  /** The dstack after a node is replaced by its children. */
  function UnfoldPlaces(dstack: seq<nat>, t: Tree, l: nat, r: nat): seq<nat>
    requires dstack != []
  {
    dstack[..|dstack| - 1] + (if t.left.Sub? then [l] else []) + (if t.right.Sub? then [r] else [])
  }

  /** The places given are new, and the cell of the top node now refers to them. */
  ghost predicate Placed(to: seq<Cell>, to': seq<Cell>, ts: seq<Tree>, dstack: seq<nat>, ren: map<nat, nat>, l: nat, r: nat)
    requires ts != [] && |dstack| == |ts|
  {
    var t, d := ts[|ts| - 1], dstack[|ts| - 1];
    (t.left.Sub? ==> l !in ren.Values) && (t.right.Sub? ==> r !in ren.Values) && (t.left.Sub? && t.right.Sub? ==> l != r) &&
    d < |to| == |to'| &&
    to'[d] == Used(RenamedHalf(Resolve(t.left), Extend(ren, t, l, r)), RenamedHalf(Resolve(t.right), Extend(ren, t, l, r))) &&
    forall q :: 0 <= q < |to| && q != d ==> to'[q] == to[q]
  }

  lemma ChildrenNew(ts: seq<Tree>, ren: map<nat, nat>)
    requires ts != [] && Apart(ts) && Refs(ts[|ts| - 1]) * ren.Keys <= {ts[|ts| - 1].ref}
    ensures var t := ts[|ts| - 1];
      (t.left.Sub? ==> t.left.t.ref !in ren && t.left.t.ref in Refs(t) && t.left.t.ref != t.ref) &&
      (t.right.Sub? ==> t.right.t.ref !in ren && t.right.t.ref in Refs(t) && t.right.t.ref != t.ref) &&
      (t.left.Sub? && t.right.Sub? ==> t.left.t.ref != t.right.t.ref)
  {
    var t := ts[|ts| - 1];
    assert t.left.Sub? ==> t.left.t.ref in Refs(t.left.t);
    assert t.right.Sub? ==> t.right.t.ref in Refs(t.right.t);
  }

  lemma ExtendPlaces(ts: seq<Tree>, ren: map<nat, nat>, l: nat, r: nat)
    requires ts != [] && Apart(ts) && Injective(ren) && Refs(ts[|ts| - 1]) * ren.Keys <= {ts[|ts| - 1].ref}
    requires var t := ts[|ts| - 1];
      (t.left.Sub? ==> l !in ren.Values) && (t.right.Sub? ==> r !in ren.Values) && (t.left.Sub? && t.right.Sub? ==> l != r)
    ensures var t := ts[|ts| - 1];
      Injective(Extend(ren, t, l, r)) &&
      (forall q :: q in ren ==> q in Extend(ren, t, l, r) && Extend(ren, t, l, r)[q] == ren[q]) &&
      Extend(ren, t, l, r).Values == ren.Values + (if t.left.Sub? then {l} else {}) + (if t.right.Sub? then {r} else {}) &&
      Extend(ren, t, l, r).Keys == ren.Keys + (if t.left.Sub? then {t.left.t.ref} else {}) + (if t.right.Sub? then {t.right.t.ref} else {})
  {
    hide Refs, Apart, Injective;
    var t := ts[|ts| - 1];
    ChildrenNew(ts, ren);
    var a := ren;
    if t.left.Sub? {
      AddPlace(a, t.left.t.ref, l);
      a := a[t.left.t.ref := l];
    }
    if t.right.Sub? {
      AddPlace(a, t.right.t.ref, r);
      a := a[t.right.t.ref := r];
    }
  }

  lemma EntryOf(from: seq<Cell>, to: seq<Cell>, to': seq<Cell>, ts: seq<Tree>, dstack: seq<nat>, ren: map<nat, nat>, done: set<nat>, l: nat, r: nat, k: nat)
    requires ts != [] && Cloning(from, to, ts, dstack, ren, done) && Placed(to, to', ts, dstack, ren, l, r)
    requires k < |Unfold(ts)|
    ensures var t, u, ren' := ts[|ts| - 1], Unfold(ts)[k], Extend(ren, ts[|ts| - 1], l, r);
      k < |UnfoldPlaces(dstack, t, l, r)| &&
      Holds(from, u) && u.ref in ren' && ren'[u.ref] == UnfoldPlaces(dstack, t, l, r)[k] && u.ref !in done && u.ref != t.ref &&
      Refs(u) * ren'.Keys <= {u.ref}
  {
    hide Refs, NoSharing, Holds, Injective, Apart, Extend, Copied;
    var t, n := ts[|ts| - 1], |ts| - 1;
    CloningTop(from, to, ts, dstack, ren, done);
    ExtendPlaces(ts, ren, l, r);
    if k < n {
      OldEntry(from, to, ts, dstack, ren, done, k);
    } else {
      NewEntry(from, to, ts, dstack, ren, done, l, r, k);
    }
  }

  lemma CloningTop(from: seq<Cell>, to: seq<Cell>, ts: seq<Tree>, dstack: seq<nat>, ren: map<nat, nat>, done: set<nat>)
    requires ts != [] && Cloning(from, to, ts, dstack, ren, done)
    ensures |dstack| == |ts| && Apart(ts) && Injective(ren) && Refs(ts[|ts| - 1]) * ren.Keys <= {ts[|ts| - 1].ref}
  {
    hide Refs, NoSharing, Holds, Injective, Apart, Copied;
  }

  /** An entry that stays: its cells are not among those of the top tree. */
  lemma OldEntry(from: seq<Cell>, to: seq<Cell>, ts: seq<Tree>, dstack: seq<nat>, ren: map<nat, nat>, done: set<nat>, k: nat)
    requires ts != [] && Cloning(from, to, ts, dstack, ren, done) && k < |ts| - 1
    ensures var t, u := ts[|ts| - 1], ts[k];
      Holds(from, u) && u.ref in ren && ren[u.ref] == dstack[k] && u.ref !in done && u.ref != t.ref &&
      Refs(u) * ren.Keys <= {u.ref} && Refs(u) !! Refs(t) && u.ref in Refs(u) &&
      (t.left.Sub? ==> t.left.t.ref in Refs(t)) && (t.right.Sub? ==> t.right.t.ref in Refs(t))
  {
    hide Holds, NoSharing, Injective, Copied;
    var t, u := ts[|ts| - 1], ts[k];
    assert u.ref in Refs(u) && t.ref in Refs(t);
    assert t.left.Sub? ==> t.left.t.ref in Refs(t.left.t);
    assert t.right.Sub? ==> t.right.t.ref in Refs(t.right.t);
  }

  /** An entry that comes: a child of the top tree. */
  lemma NewEntry(from: seq<Cell>, to: seq<Cell>, ts: seq<Tree>, dstack: seq<nat>, ren: map<nat, nat>, done: set<nat>, l: nat, r: nat, k: nat)
    requires ts != [] && Cloning(from, to, ts, dstack, ren, done) && |ts| - 1 <= k < |Unfold(ts)|
    ensures var t, u, ren' := ts[|ts| - 1], Unfold(ts)[k], Extend(ren, ts[|ts| - 1], l, r);
      k < |UnfoldPlaces(dstack, t, l, r)| &&
      Holds(from, u) && u.ref in ren' && ren'[u.ref] == UnfoldPlaces(dstack, t, l, r)[k] && u.ref !in done && u.ref != t.ref &&
      Refs(u) * ren'.Keys <= {u.ref}
  {
    var t, u := ts[|ts| - 1], Unfold(ts)[k];
    ChildrenNew(ts, ren);
    assert t.ref in Refs(t);
    assert u.ref in Refs(u) && Refs(u) <= Refs(t) && t.ref !in Refs(u);
    assert u.ref !in ren;
  }

  lemma StillCopied(from: seq<Cell>, to: seq<Cell>, to': seq<Cell>, ts: seq<Tree>, dstack: seq<nat>, ren: map<nat, nat>, done: set<nat>, l: nat, r: nat, q: nat)
    requires ts != [] && Cloning(from, to, ts, dstack, ren, done) && Placed(to, to', ts, dstack, ren, l, r)
    requires q in done || q == ts[|ts| - 1].ref
    ensures Copied(q, from, to', Extend(ren, ts[|ts| - 1], l, r))
  {
    hide Refs, NoSharing, Apart;
    var t := ts[|ts| - 1];
    ExtendPlaces(ts, ren, l, r);
    if q in done {
      assert q != t.ref;
      assert ren[q] != ren[t.ref];
    }
  }

  lemma StillCovered(ts: seq<Tree>, ren: map<nat, nat>, done: set<nat>, l: nat, r: nat, q: nat)
    requires ts != [] && q in Extend(ren, ts[|ts| - 1], l, r)
    requires q in ren ==> q in done || exists k :: 0 <= k < |ts| && ts[k].ref == q
    ensures q in done + {ts[|ts| - 1].ref} || exists k :: 0 <= k < |Unfold(ts)| && Unfold(ts)[k].ref == q
  {
    var t, n, us := ts[|ts| - 1], |ts| - 1, Unfold(ts);
    if t.left.Sub? && q == t.left.t.ref {
      assert us[n].ref == q;
    } else if t.right.Sub? && q == t.right.t.ref {
      assert us[|us| - 1].ref == q;
    } else if q !in done {
      var k :| 0 <= k < |ts| && ts[k].ref == q;
      if k < n {
        assert us[k].ref == q;
      }
    }
  }

  /** One step of the copy. */
  lemma CloningStep(from: seq<Cell>, to: seq<Cell>, to': seq<Cell>, ts: seq<Tree>, dstack: seq<nat>, ren: map<nat, nat>, done: set<nat>, l: nat, r: nat)
    requires ts != [] && Cloning(from, to, ts, dstack, ren, done) && Placed(to, to', ts, dstack, ren, l, r)
    ensures var t := ts[|ts| - 1];
      Cloning(from, to', Unfold(ts), UnfoldPlaces(dstack, t, l, r), Extend(ren, t, l, r), done + {t.ref}) &&
      Extend(ren, t, l, r).Values == ren.Values + (if t.left.Sub? then {l} else {}) + (if t.right.Sub? then {r} else {})
  {
    hide Refs, NoSharing, Holds, Copied, Injective, Apart, Extend, RenamedHalf;
    var t := ts[|ts| - 1];
    var us, ds, ren', done' := Unfold(ts), UnfoldPlaces(dstack, t, l, r), Extend(ren, t, l, r), done + {t.ref};
    ExtendPlaces(ts, ren, l, r);
    UnfoldApart(ts);
    forall k | 0 <= k < |us| ensures Holds(from, us[k]) && us[k].ref in ren' && ren'[us[k].ref] == ds[k] && us[k].ref !in done' && Refs(us[k]) * ren'.Keys <= {us[k].ref} {
      EntryOf(from, to, to', ts, dstack, ren, done, l, r, k);
    }
    forall q | q in done' ensures Copied(q, from, to', ren') {
      StillCopied(from, to, to', ts, dstack, ren, done, l, r, q);
    }
    forall q | q in ren' ensures q in done' || exists k :: 0 <= k < |us| && us[k].ref == q {
      StillCovered(ts, ren, done, l, r, q);
    }
  }

  /** When nothing is left to do, the copy holds the source's tree under new cell numbers. */
  lemma {:induction false} AllCopied(from: seq<Cell>, to: seq<Cell>, t: Tree, ren: map<nat, nat>)
    requires Holds(from, t) && t.ref in ren
    requires forall q :: q in ren ==> Copied(q, from, to, ren)
    ensures Refs(t) <= ren.Keys
    ensures Holds(to, Renamed(t, ren))
    decreases t
  {
    assert Copied(t.ref, from, to, ren);
    if t.left.Sub? {
      AllCopied(from, to, t.left.t, ren);
    }
    if t.right.Sub? {
      AllCopied(from, to, t.right.t, ren);
    }
  }

  lemma StartCloning(from: seq<Cell>, to: seq<Cell>, t: Tree)
    requires Holds(from, t) && NoSharing(t) && t.ref == ROOT_REF
    ensures Cloning(from, to, [t], [ROOT_REF], map[ROOT_REF := ROOT_REF], {})
    ensures ROOT_REF in Refs(t)
  {
    assert Apart([t]) && [t][0].ref == ROOT_REF;
  }

  lemma TopFacts(from: seq<Cell>, to: seq<Cell>, ts: seq<Tree>, dstack: seq<nat>, ren: map<nat, nat>, done: set<nat>)
    requires ts != [] && Cloning(from, to, ts, dstack, ren, done)
    ensures |dstack| == |ts| && dstack[|ts| - 1] in ren.Values
    ensures Apart(ts) && Injective(ren) && Refs(ts[|ts| - 1]) * ren.Keys <= {ts[|ts| - 1].ref}
  {
    assert ren[ts[|ts| - 1].ref] == dstack[|ts| - 1];
  }

  lemma RenamedOf(ts: seq<Tree>, ren: map<nat, nat>, l: nat, r: nat)
    requires ts != [] && Apart(ts) && Refs(ts[|ts| - 1]) * ren.Keys <= {ts[|ts| - 1].ref}
    ensures var t := ts[|ts| - 1];
      RenamedHalf(Resolve(t.left), Extend(ren, t, l, r)) == (if t.left.Sub? then Ref(l) else Resolve(t.left)) &&
      RenamedHalf(Resolve(t.right), Extend(ren, t, l, r)) == (if t.right.Sub? then Ref(r) else Resolve(t.right))
  {
    ChildrenNew(ts, ren);
  }

  lemma ChildrenInside(t: Tree, ts: seq<Tree>)
    requires ts != [] && forall k :: 0 <= k < |ts| ==> Refs(ts[k]) <= Refs(t)
    ensures forall k :: 0 <= k < |Unfold(ts)| ==> Refs(Unfold(ts)[k]) <= Refs(t)
    ensures var u := ts[|ts| - 1]; (u.left.Sub? ==> u.left.t.ref in Refs(t)) && (u.right.Sub? ==> u.right.t.ref in Refs(t))
  {
    var u, n := ts[|ts| - 1], |ts| - 1;
    assert Refs(u) <= Refs(t);
    assert u.left.Sub? ==> u.left.t.ref in Refs(u.left.t) && Refs(u.left.t) <= Refs(u);
    assert u.right.Sub? ==> u.right.t.ref in Refs(u.right.t) && Refs(u.right.t) <= Refs(u);
    forall k | 0 <= k < |Unfold(ts)| ensures Refs(Unfold(ts)[k]) <= Refs(t) {
      if k < n {
        assert Unfold(ts)[k] == ts[k];
      }
    }
  }

  lemma EndCloning(from: seq<Cell>, to: seq<Cell>, t: Tree, dstack: seq<nat>, ren: map<nat, nat>, done: set<nat>)
    requires Cloning(from, to, [], dstack, ren, done) && Holds(from, t) && t.ref == ROOT_REF
    ensures Injective(ren) && ROOT_REF in ren && ren[ROOT_REF] == ROOT_REF
    ensures Refs(t) <= ren.Keys && Holds(to, Renamed(t, ren))
  {
    hide Refs, Holds, Copied, Injective;
    AllCopied(from, to, t, ren);
  }

  function HalfCount(h: CellHalf): nat {
    if h.Ref? then 1 else 0
  }

  /** Gives the children of a cell their places and copies the cell with references to them. */
  method CloneCell(destination: BinMap, cell: Cell, d: nat, ghost used: set<nat>) returns (l: nat, r: nat)
    requires cell.Used? && destination.StoreOk(used) && d in used
    requires HalfCount(cell.left) + HalfCount(cell.right) <= |destination.free|
    modifies destination`cells, destination`taken, destination`freeTop, destination`free
    ensures destination.StoreOk(used + (if cell.left.Ref? then {l} else {}) + (if cell.right.Ref? then {r} else {}))
    ensures cell.left.Ref? ==> l !in used
    ensures cell.right.Ref? ==> r !in used
    ensures cell.left.Ref? && cell.right.Ref? ==> l != r
    ensures |destination.free| == |old(destination.free)| - HalfCount(cell.left) - HalfCount(cell.right)
    ensures d < |old(destination.cells)|
    ensures destination.cells == old(destination.cells)[d := Used(if cell.left.Ref? then Ref(l) else cell.left, if cell.right.Ref? then Ref(r) else cell.right)]
  {
    hide Chain, Distinct;
    ghost var u := used;
    l, r := 0, 0;
    if cell.left.Ref? {
      l := destination.AllocDirty(u);
      u := u + {l};
    }
    if cell.right.Ref? {
      r := destination.AllocDirty(u);
      u := u + {r};
    }
    var left := if cell.left.Ref? then Ref(l) else cell.left;
    var right := if cell.right.Ref? then Ref(r) else cell.right;
    destination.Write(d, Used(left, right), u);
    assert u == used + (if cell.left.Ref? then {l} else {}) + (if cell.right.Ref? then {r} else {});
  }

  /** One round: the top cell is cloned, and its children go on the two stacks. */
  method CloneTop(destination: BinMap, source: BinMap, sstack: seq<nat>, dstack: seq<nat>, ghost ts: seq<Tree>, ghost ren: map<nat, nat>, ghost done: set<nat>)
    returns (s: seq<nat>, d: seq<nat>, ghost ext: map<nat, nat>)
    requires destination != source && source.Valid() && sstack != [] && Stacked(source.cells, sstack, ts, source.root.layer)
    requires Cloning(source.cells, destination.cells, ts, dstack, ren, done) && |dstack| == |sstack|
    requires destination.StoreOk(ren.Values) && Sizes(ts) <= |destination.free| + |ts|
    modifies destination`cells, destination`taken, destination`freeTop, destination`free
    ensures Stacked(source.cells, s, Unfold(ts), source.root.layer) && |s| == |d| <= 64
    ensures Cloning(source.cells, destination.cells, Unfold(ts), d, ext, done + {ts[|ts| - 1].ref})
    ensures destination.StoreOk(ext.Values) && Sizes(Unfold(ts)) <= |destination.free| + |Unfold(ts)|
    ensures var t := ts[|ts| - 1];
      ext.Keys == ren.Keys + (if t.left.Sub? then {t.left.t.ref} else {}) + (if t.right.Sub? then {t.right.t.ref} else {})
    ensures forall q :: q in ren ==> q in ext && ext[q] == ren[q]
  {
    hide Size, Refs, NoSharing, Holds, Fits, CanonicalHalf, Chain, Distinct, P, Sizes, Cloning, Copied, Injective, Apart, Extend, RenamedHalf;
    var n := |sstack| - 1;
    ghost var t := ts[n];
    TopCell(source.cells, t, source.root.layer - n);
    var cell, at := source.cells[sstack[n]], dstack[n];
    UnfoldSizes(ts);
    SizesAtLeast(Unfold(ts));
    UnfoldStacked(source.cells, sstack, ts, source.root.layer);
    ghost var to := destination.cells;
    TopFacts(source.cells, to, ts, dstack, ren, done);
    var l, r := CloneCell(destination, cell, at, ren.Values);
    ext := Extend(ren, t, l, r);
    ExtendPlaces(ts, ren, l, r);
    RenamedOf(ts, ren, l, r);
    CloningStep(source.cells, to, destination.cells, ts, dstack, ren, done, l, r);
    s := sstack[..n] + (if cell.left.Ref? then [cell.left.r] else []) + (if cell.right.Ref? then [cell.right.r] else []);
    d := dstack[..n] + (if cell.left.Ref? then [l] else []) + (if cell.right.Ref? then [r] else []);
  }

  /** Clones the cells of the source into an emptied destination. */
  method CloneCells(destination: BinMap, source: BinMap) returns (ghost ren: map<nat, nat>)
    requires destination != source && source.Valid()
    requires destination.StoreOk({ROOT_REF}) && Size(source.tree) <= |destination.free| + 1
    requires |destination.cells| > 0
    modifies destination`cells, destination`taken, destination`freeTop, destination`free
    ensures destination.StoreOk(ren.Values) && Injective(ren) && ROOT_REF in ren && ren[ROOT_REF] == ROOT_REF
    ensures ren.Keys == Refs(source.tree) && Holds(destination.cells, Renamed(source.tree, ren))
  {
    hide Size, Refs, NoSharing, Holds, Fits, CanonicalHalf, Chain, Distinct, P, Sizes, Cloning, Copied, Injective, Apart, Extend, RenamedHalf;
    var sstack, dstack := [ROOT_REF], [ROOT_REF];
    ghost var ts, done := [source.tree], {};
    ren := map[ROOT_REF := ROOT_REF];
    StartCloning(source.cells, destination.cells, source.tree);
    SizesPush([], source.tree);
    NoSizes();
    assert [] + [source.tree] == ts;
    assert ren.Values == {ROOT_REF};
    while sstack != []
      invariant Stacked(source.cells, sstack, ts, source.root.layer)
      invariant Cloning(source.cells, destination.cells, ts, dstack, ren, done) && |dstack| == |sstack|
      invariant ren.Keys <= Refs(source.tree) && forall k :: 0 <= k < |ts| ==> Refs(ts[k]) <= Refs(source.tree)
      invariant destination.StoreOk(ren.Values)
      invariant Sizes(ts) <= |destination.free| + |ts|
      invariant |sstack| <= 64
      decreases Sizes(ts)
    {
      UnfoldSizes(ts);
      ghost var t := ts[|ts| - 1];
      ChildrenInside(source.tree, ts);
      sstack, dstack, ren := CloneTop(destination, source, sstack, dstack, ts, ren, done);
      ts, done := Unfold(ts), done + {t.ref};
    }
    assert ts == [];
    EndCloning(source.cells, destination.cells, source.tree, dstack, ren, done);
  }

  /** The renamed tree occupies exactly the places given out. */
  lemma RenamedValues(t: Tree, ren: map<nat, nat>)
    requires ren.Keys == Refs(t) && Injective(ren) && NoSharing(t)
    ensures Refs(Renamed(t, ren)) == ren.Values
  {
    RenamedRefs(t, ren);
    forall d: nat ensures d in Refs(Renamed(t, ren)) <==> d in ren.Values {
      if d in ren.Values {
        var r :| r in ren && ren[r] == d;
        assert r in Refs(t);
      }
    }
  }

  /** What the clone inherits from the tree it was made of. */
  lemma CloneOf(t: Tree, ren: map<nat, nat>, l: nat)
    requires ren.Keys == Refs(t) && Injective(ren) && NoSharing(t) && Fits(t, l) && Canonical(t)
    requires t.ref == ROOT_REF && ren[ROOT_REF] == ROOT_REF
    ensures var u := Renamed(t, ren);
      u.ref == ROOT_REF && Refs(u) == ren.Values && NoSharing(u) && Fits(u, l) && Canonical(u) && SameShape(t, u)
  {
    hide Fits, CanonicalHalf, Uniform, Injective, SameHalf;
    RenamedShape(t, ren);
    RenamedRefs(t, ren);
    RenamedValues(t, ren);
    ShapeKept(t, Renamed(t, ren), l);
  }

  /** Room in the destination for every cell of the source; all its own cells but the root's are given back. */
  method MakeRoom(destination: BinMap, source: BinMap)
    requires destination != source && destination.Valid() && source.Valid()
    modifies destination`cells, destination`taken, destination`freeTop, destination`free
    ensures destination.StoreOk({ROOT_REF}) && Size(source.tree) <= |destination.free| + 1
    ensures |destination.cells| > 0
  {
    hide Size, Refs, NoSharing, Holds, Fits, CanonicalHalf, Chain, Distinct, P;
    var ssize := CountCells(source);
    var dsize := CountCells(destination);
    ghost var u := Refs(destination.tree);
    if dsize < ssize {
      destination.Reserve(ssize - dsize, u);
      HoldsFrame(old(destination.cells), destination.cells, destination.tree);
    }
    destination.StoreCount(u);
    SizeIsCount(destination.tree);
    destination.FreeHalves();
    destination.StoreCount({ROOT_REF});
    assert |{ROOT_REF}| == 1;
    assert ROOT_REF in {ROOT_REF};
  }

  /** copy(destination, source): the same set in the destination, the source untouched. */
  method CopyMap(destination: BinMap, source: BinMap)
    requires destination != source && destination.Valid() && source.Valid()
    modifies destination
    ensures destination.Valid() && destination.root == source.root
    ensures SameShape(source.tree, destination.tree)
    ensures forall i: nat :: destination.Has(i) <==> source.Has(i)
  {
    hide Size, Refs, NoSharing, Holds, Fits, CanonicalHalf, Chain, Distinct, P, TreeHas, Injective, Uniform, SameHalf;
    MakeRoom(destination, source);
    ghost var ren := CloneCells(destination, source);
    CloneOf(source.tree, ren, source.root.layer);
    destination.tree := Renamed(source.tree, ren);
    destination.root := source.root;
    forall i: nat ensures destination.Has(i) <==> source.Has(i) {
      ShapeHas(source.tree, destination.tree, source.root, i);
    }
  }
}
