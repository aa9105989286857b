/** Unravelling a secondary edge: a breadth-first deep copy of a subtree,
    appended as the last child of another node.  Both readers have their own
    copy helper; they differ only in where a rebuilt leaf's token comes from and
    in whether Atoms directly under the copy's root take the new edge label,
    so one method with a CopySpec serves both. */
module SubtreeCopy {
  import opened Arena

  /** How a copy is made: the edge label of the copy's root, the leaf builder,
      the tokens leaves are rebuilt from (indexed by line number), whether Atoms
      directly under the copy's root take the edge label too, and the error a
      line number with no token raises. */
  datatype CopySpec = CopySpec(edgeLabel: string, mode: LeafMode, payloads: seq<Payload>,
                               retagRootAtoms: bool, missing: Error)

  /** The leaf rebuilt under copy node `parent` whose line number is `lineno`. */
  function RebuiltLeaf(spec: CopySpec, lineno: int, parent: nat, atRoot: bool): (r: Result<Leaf>)
    ensures r.Ok? <==> 0 <= lineno < |spec.payloads| &&
                       MakeLeaf(spec.mode, spec.payloads[lineno], lineno, parent).Some?
    ensures r.Ok? ==> LeafText(r.value) == spec.payloads[lineno].word
    ensures r.Ok? ==> (r.value.AtomLeaf? <==> spec.mode == AtomLeaves)
    ensures r.Ok? && r.value.AtomLeaf? ==>
              var p := spec.payloads[lineno];
              r.value.atom.gridLineno == lineno && r.value.atom.tag == p.tag &&
              r.value.atom.morph == p.morph.value && r.value.atom.lemmaForm == p.lemmaForm &&
              r.value.atom.secedge == p.secedge && r.value.atom.comment == p.comment &&
              r.value.atom.parent == parent &&
              r.value.atom.edge == (if atRoot && spec.retagRootAtoms then Some(spec.edgeLabel)
                                    else spec.payloads[lineno].edge)
  {
    if !(0 <= lineno < |spec.payloads|) then Fail(spec.missing)
    else
      match MakeLeaf(spec.mode, spec.payloads[lineno], lineno, parent)
      case None => Fail(KeyError)
      case Some(l) =>
        Ok(if atRoot && spec.retagRootAtoms && l.AtomLeaf? then AtomLeaf(l.atom.(edge := Some(spec.edgeLabel)))
           else l)
  }

  // ---------------------------------------------------------------------------
  // What a finished copy looks like
  // ---------------------------------------------------------------------------
  // The nodes of a copy are the handles from |a0| on, a0 being the arena before
  // copying; origin[n - |a0|] is the node that copy node n was made from.

  ghost predicate HasOrigin(a0: seq<Node>, a: seq<Node>, origin: seq<nat>, n: nat)
  {
    |a0| <= n < |a| && n - |a0| < |origin| && origin[n - |a0|] < |a0|
  }

  /** Child i of copy node n is the copy of child i of its original: a fresh copy
      node made from the same original node, or the leaf rebuilt for n. */
  ghost predicate MirrorKid(a0: seq<Node>, a: seq<Node>, origin: seq<nat>, spec: CopySpec, n: nat, i: nat)
    requires HasOrigin(a0, a, origin, n) && i < |a[n].kids| && i < |a0[origin[n - |a0|]].kids|
  {
    match a0[origin[n - |a0|]].kids[i]
    case Sub(x) =>
      a[n].kids[i].Sub? && n < a[n].kids[i].handle < |a| &&
      a[n].kids[i].handle - |a0| < |origin| && origin[a[n].kids[i].handle - |a0|] == x
    case Tip(_) =>
      a[n].kids[i].Tip? && RebuiltLeaf(spec, a[n].lineno, n, n == |a0|) == Ok(a[n].kids[i].leaf)
  }

  /** Copy node n has its original's label and line number, the new edge label
      if it is the copy's root and its original's edge otherwise, and its
      children so far mirror a prefix of its original's. */
  ghost predicate MirrorNode(a0: seq<Node>, a: seq<Node>, origin: seq<nat>, spec: CopySpec, n: nat)
  {
    HasOrigin(a0, a, origin, n) &&
    var o := a0[origin[n - |a0|]];
    a[n].tag == o.tag && a[n].lineno == o.lineno &&
    a[n].edge == (if n == |a0| then Some(spec.edgeLabel) else o.edge) &&
    a[n].secedge == None && a[n].comment == None &&
    |a[n].kids| <= |o.kids| &&
    forall i :: 0 <= i < |a[n].kids| ==> MirrorKid(a0, a, origin, spec, n, i)
  }

  /** The nodes from |a0| on form a complete copy of the subtree at src. */
  ghost predicate Mirror(a0: seq<Node>, a: seq<Node>, origin: seq<nat>, spec: CopySpec, src: nat)
  {
    |origin| == |a| - |a0| > 0 && origin[0] == src &&
    forall n :: |a0| <= n < |a| ==>
      MirrorNode(a0, a, origin, spec, n) && |a[n].kids| == |a0[origin[n - |a0|]].kids|
  }

  /** r is a with a complete copy of the subtree at src appended as the last
      child of target, and nothing else changed. */
  ghost predicate CopiedInto(a: seq<Node>, r: seq<Node>, src: nat, target: nat, spec: CopySpec)
  {
    |r| > |a| && target < |a| &&
    r[target] == a[target].(kids := a[target].kids + [Sub(|a|)]) &&
    (forall k :: 0 <= k < |a| && k != target ==> r[k] == a[k]) &&
    exists origin :: Mirror(a, r, origin, spec, src)
  }

  // ---------------------------------------------------------------------------
  // The work queue
  // ---------------------------------------------------------------------------
  // During the copy, copy node |a| + j was made from an original whose children
  // are want[j], and it has received filled[j] of their copies so far.

  /** The queue entries for the children of `items`, all to be copied under n. */
  function Pair(n: nat, items: seq<Item>): (q: seq<(nat, Item)>)
    ensures |q| == |items|
  {
    if items == [] then [] else [(n, items[0])] + Pair(n, items[1..])
  }

  lemma {:induction false} PairAt(n: nat, items: seq<Item>, k: nat)
    requires k < |items|
    ensures Pair(n, items)[k] == (n, items[k])
  {
    if k > 0 {
      PairAt(n, items[1..], k - 1);
    }
  }

  lemma PairTail(n: nat, items: seq<Item>, k: nat)
    requires k < |items|
    ensures Pair(n, items[k + 1..]) == Pair(n, items[k..])[1..]
  {
    assert items[k..][1..] == items[k + 1..];
  }

  ghost function Items(q: seq<(nat, Item)>): (r: seq<Item>)
    ensures |r| == |q| && forall k :: 0 <= k < |q| ==> r[k] == q[k].1
  {
    seq(|q|, k requires 0 <= k < |q| => q[k].1)
  }

  /** s with entry i one higher. */
  function Bump(s: seq<nat>, i: nat): (r: seq<nat>)
    requires i < |s|
    ensures |r| == |s| && r[i] == s[i] + 1 && forall j :: 0 <= j < |s| && j != i ==> r[j] == s[j]
  {
    s[i := s[i] + 1]
  }

  /** The children of copy node base + j that still await their copy. */
  ghost function Rem(want: seq<seq<Item>>, filled: seq<nat>, base: nat, j: nat): seq<(nat, Item)>
  {
    if j < |want| && j < |filled| && filled[j] <= |want[j]| then Pair(base + j, want[j][filled[j]..]) else []
  }

  /** The breadth-first queue: the outstanding children of copy nodes lo .. hi-1, in order. */
  ghost function Pend(want: seq<seq<Item>>, filled: seq<nat>, base: nat, lo: nat, hi: nat): seq<(nat, Item)>
    decreases hi - lo
  {
    if lo < hi then Rem(want, filled, base, lo) + Pend(want, filled, base, lo + 1, hi) else []
  }

  lemma {:induction false} PendFrame(w1: seq<seq<Item>>, f1: seq<nat>, w2: seq<seq<Item>>, f2: seq<nat>,
                                     base: nat, lo: nat, hi: nat)
    requires forall j :: lo <= j < hi ==> Rem(w1, f1, base, j) == Rem(w2, f2, base, j)
    ensures Pend(w1, f1, base, lo, hi) == Pend(w2, f2, base, lo, hi)
    decreases hi - lo
  {
    if lo < hi {
      PendFrame(w1, f1, w2, f2, base, lo + 1, hi);
    }
  }

  lemma {:induction false} PendSnoc(want: seq<seq<Item>>, filled: seq<nat>, base: nat, lo: nat, hi: nat)
    requires lo <= hi
    ensures Pend(want, filled, base, lo, hi + 1) == Pend(want, filled, base, lo, hi) + Rem(want, filled, base, hi)
    decreases hi - lo
  {
    if lo < hi {
      PendSnoc(want, filled, base, lo + 1, hi);
    } else {
      assert Pend(want, filled, base, lo + 1, hi + 1) == [];
    }
  }

  lemma {:induction false} PendEmpty(want: seq<seq<Item>>, filled: seq<nat>, base: nat, lo: nat, hi: nat, j: nat)
    requires Pend(want, filled, base, lo, hi) == [] && lo <= j < hi
    ensures Rem(want, filled, base, j) == []
    decreases hi - lo
  {
    if lo < j {
      PendEmpty(want, filled, base, lo + 1, hi, j);
    }
  }

  lemma DropHead<T>(r: seq<T>, rest: seq<T>)
    requires r != []
    ensures (r + rest)[1..] == r[1..] + rest
  {
  }

  /** Copy node base + lo receives its next child: the queue loses its head. */
  lemma PendAdvance(want: seq<seq<Item>>, filled: seq<nat>, base: nat, lo: nat)
    requires lo < |want| == |filled| && filled[lo] < |want[lo]|
    ensures |Pend(want, filled, base, lo, |want|)| > 0
    ensures Pend(want, Bump(filled, lo), base, lo, |want|) == Pend(want, filled, base, lo, |want|)[1..]
  {
    var filled' := Bump(filled, lo);
    PairTail(base + lo, want[lo], filled[lo]);
    PendFrame(want, filled, want, filled', base, lo + 1, |want|);
    DropHead(Rem(want, filled, base, lo), Pend(want, filled, base, lo + 1, |want|));
  }

  /** A new copy node with no children yet: its children join the end of the queue. */
  lemma PendPush(want: seq<seq<Item>>, filled: seq<nat>, base: nat, lo: nat, w: seq<Item>)
    requires lo <= |want| == |filled|
    ensures Pend(want + [w], filled + [0], base, lo, |want + [w]|) ==
            Pend(want, filled, base, lo, |want|) + Pair(base + |want|, w)
  {
    var want', filled' := want + [w], filled + [0];
    forall j | lo <= j < |want|
      ensures Rem(want', filled', base, j) == Rem(want, filled, base, j)
    {
      assert want'[j] == want[j] && filled'[j] == filled[j];
    }
    PendFrame(want, filled, want', filled', base, lo, |want|);
    PendSnoc(want', filled', base, lo, |want|);
    assert Rem(want', filled', base, |want|) == Pair(base + |want|, w) by {
      assert want'[|want|][filled'[|want|]..] == w;
    }
  }

  // ---------------------------------------------------------------------------
  // The copy
  // ---------------------------------------------------------------------------

  /** A new node with the label, line number and edge of o and no children yet. */
  function FreshCopy(o: Node): (c: Node)
    ensures c.tag == o.tag && c.lineno == o.lineno && c.edge == o.edge && c.kids == []
    ensures c.secedge == None && c.comment == None
  {
    Node(o.tag, [], o.lineno, o.edge, None, None)
  }

  // The loop invariant of the copy, in six parts.

  /** The arena before copying is left as it was and every copy node has an original. */
  ghost predicate Frame(a: seq<Node>, arena: seq<Node>, origin: seq<nat>, src: nat)
  {
    |arena| > |a| && arena[..|a|] == a &&
    |origin| == |arena| - |a| && origin[0] == src &&
    forall k :: 0 <= k < |origin| ==> origin[k] < |a|
  }

  /** Every copy node mirrors its original so far. */
  ghost predicate Mirrors(a: seq<Node>, arena: seq<Node>, origin: seq<nat>, spec: CopySpec)
  {
    forall n :: |a| <= n < |arena| ==> MirrorNode(a, arena, origin, spec, n)
  }

  /** want and filled describe the copy nodes. */
  ghost predicate Tally(a: seq<Node>, arena: seq<Node>, origin: seq<nat>, want: seq<seq<Item>>, filled: seq<nat>)
  {
    |want| == |filled| == |origin| == |arena| - |a| &&
    forall j :: 0 <= j < |filled| ==>
      filled[j] == |arena[|a| + j].kids| && origin[j] < |a| && want[j] == a[origin[j]].kids &&
      filled[j] <= |want[j]|
  }

  /** The copy nodes before lo are complete and the queue holds the outstanding
      children of the others, in breadth-first order. */
  ghost predicate Queue(want: seq<seq<Item>>, filled: seq<nat>, base: nat, lo: nat, todo: seq<(nat, Item)>)
  {
    lo <= |want| &&
    (forall j :: 0 <= j < lo ==> Rem(want, filled, base, j) == []) &&
    todo == Pend(want, filled, base, lo, |want|)
  }

  /** Queue entry e is the next child of copy node e.0's original. */
  ghost predicate HeadOk(a: seq<Node>, arena: seq<Node>, origin: seq<nat>, e: (nat, Item))
  {
    |a| <= e.0 < |arena| && e.0 - |a| < |origin| && origin[e.0 - |a|] < |a| &&
    |arena[e.0].kids| < |a[origin[e.0 - |a|]].kids| && a[origin[e.0 - |a|]].kids[|arena[e.0].kids|] == e.1
  }

  /** Every node waiting in the queue has only paths shorter than d below it. */
  ghost predicate QueueFinite(a: seq<Node>, todo: seq<(nat, Item)>, d: nat)
  {
    forall k :: 0 <= k < |todo| && todo[k].1.Sub? ==> Finite(a, todo[k].1.handle, d)
  }

  /** The arena is closed, the copy's root is nobody's child yet, and nothing is
      shared if nothing was. */
  ghost predicate Shape(a: seq<Node>, arena: seq<Node>)
  {
    Closed(arena) && Unreferenced(arena, |a|) && (Unshared(a) ==> Unshared(arena))
  }

  /** The loop invariant of the copy: one half about the arena, one about the queue. */
  ghost predicate Inv(a: seq<Node>, arena: seq<Node>, origin: seq<nat>, want: seq<seq<Item>>, filled: seq<nat>,
                      lo: nat, todo: seq<(nat, Item)>, d: nat, src: nat, spec: CopySpec)
  {
    ArenaInv(a, arena, origin, want, filled, src, spec) && QueueInv(a, want, filled, lo, todo, d)
  }

  ghost predicate ArenaInv(a: seq<Node>, arena: seq<Node>, origin: seq<nat>, want: seq<seq<Item>>,
                           filled: seq<nat>, src: nat, spec: CopySpec)
  {
    Frame(a, arena, origin, src) && Mirrors(a, arena, origin, spec) &&
    Tally(a, arena, origin, want, filled) && Shape(a, arena)
  }

  ghost predicate QueueInv(a: seq<Node>, want: seq<seq<Item>>, filled: seq<nat>, lo: nat,
                           todo: seq<(nat, Item)>, d: nat)
  {
    Queue(want, filled, |a|, lo, todo) && QueueFinite(a, todo, d)
  }

  /** Copies the subtree at src breadth-first with a FIFO queue of
      (copy parent, original child) pairs and appends the copy as the last child
      of target.  Leaves are rebuilt from their line's token by the leaf builder.
      The caller establishes that every path from src is finite (otherwise the
      queue never empties). */
  method CopySubtree(a: seq<Node>, src: nat, target: nat, spec: CopySpec, ghost depth: nat)
    returns (r: Result<seq<Node>>)
    requires target < |a| && Closed(a) && Finite(a, src, depth)
    ensures r.Ok? ==> CopiedInto(a, r.value, src, target, spec) && Closed(r.value)
    ensures r.Ok? && Unshared(a) ==> Unshared(r.value)
    ensures r.Fail? ==> r.err == spec.missing || r.err == KeyError
    ensures Rebuildable(a, spec.mode, spec.payloads) ==> r.Ok?
  {
    var M := |a|;
    var root := a[src];
    var arena := a + [Node(root.tag, [], root.lineno, Some(spec.edgeLabel), None, None)];
    var todo := Pair(M, root.kids);
    ghost var origin: seq<nat> := [src];
    ghost var want := [root.kids];
    ghost var filled: seq<nat> := [0];
    ghost var lo: nat := 0;
    ghost var d: nat := depth - 1;
    InitInv(a, src, spec, depth);
    while todo != []
      invariant Inv(a, arena, origin, want, filled, lo, todo, d, src, spec)
      decreases ItemsSize(a, Items(todo), d)
    {
      lo := Advance(a, arena, origin, want, filled, lo, todo, d, src, spec);
      var pc := todo[0].0;
      var current := todo[0].1;
      ghost var before, todo0 := arena, todo;
      if current.Sub? {
        var orig := arena[current.handle];
        assert orig == a[current.handle];
        var n := |arena|;
        arena := arena + [FreshCopy(orig)];
        todo := todo[1..] + Pair(n, orig.kids);
        arena := Append(arena, pc, Sub(n));
        origin, want, filled := SubStep(a, before, origin, want, filled, lo, todo0, d, src, spec);
      } else {
        if Rebuildable(a, spec.mode, spec.payloads) {
          TipRebuilds(a, arena, origin, want, filled, lo, todo, d, src, spec);
        }
        var leaf := RebuiltLeaf(spec, arena[pc].lineno, pc, pc == M);
        if leaf.Fail? {
          return Fail(leaf.err);
        }
        todo := todo[1..];
        arena := Append(arena, pc, Tip(leaf.value));
        filled := TipStep(a, before, origin, want, filled, lo, todo0, d, src, spec, leaf.value);
      }
    }
    ghost var done := arena;
    arena := Append(arena, target, Sub(M));
    Finish(a, done, arena, origin, want, filled, spec, src, target, lo, d);
    r := Ok(arena);
  }

  /** A copied child node: its fresh copy is appended to the arena and to its
      copy parent, and the original's children join the end of the queue. */
  lemma SubStep(a: seq<Node>, arena: seq<Node>, origin: seq<nat>, want: seq<seq<Item>>, filled: seq<nat>,
                lo: nat, todo: seq<(nat, Item)>, d: nat, src: nat, spec: CopySpec)
    returns (origin': seq<nat>, want': seq<seq<Item>>, filled': seq<nat>)
    requires Inv(a, arena, origin, want, filled, lo, todo, d, src, spec) && todo != [] && todo[0].1.Sub?
    requires todo[0].0 == |a| + lo && lo < |want| && filled[lo] < |want[lo]| && HeadOk(a, arena, origin, todo[0])
    requires todo[0].1.handle < |a|
    ensures var x := todo[0].1.handle;
            var todo' := todo[1..] + Pair(|arena|, a[x].kids);
            Inv(a, Append(arena + [FreshCopy(a[x])], todo[0].0, Sub(|arena|)), origin', want', filled',
                lo, todo', d, src, spec) &&
            ItemsSize(a, Items(todo'), d) < ItemsSize(a, Items(todo), d)
  {
    var x := todo[0].1.handle;
    SubArena(a, arena, origin, want, filled, lo, src, spec, todo[0].0, x);
    SubQueueSide(a, want, filled, lo, todo, d, |arena|);
    origin' := origin + [x];
    want' := want + [a[x].kids];
    filled' := Bump(filled, lo) + [0];
  }

  lemma SubArena(a: seq<Node>, arena: seq<Node>, origin: seq<nat>, want: seq<seq<Item>>, filled: seq<nat>,
                 lo: nat, src: nat, spec: CopySpec, p: nat, x: nat)
    requires ArenaInv(a, arena, origin, want, filled, src, spec)
    requires p == |a| + lo && lo < |want| && filled[lo] < |want[lo]| && x < |a| && HeadOk(a, arena, origin, (p, Sub(x)))
    ensures ArenaInv(a, Append(arena + [FreshCopy(a[x])], p, Sub(|arena|)), origin + [x],
                     want + [a[x].kids], Bump(filled, lo) + [0], src, spec)
  {
    SubFrame(a, arena, origin, src, p, x);
    SubMirrors(a, arena, origin, spec, src, p, x);
    SubTally(a, arena, origin, want, filled, lo, x);
    ShapeAfterSub(a, arena, p, |arena|, x);
  }

  lemma SubQueueSide(a: seq<Node>, want: seq<seq<Item>>, filled: seq<nat>, lo: nat, todo: seq<(nat, Item)>,
                     d: nat, N: nat)
    requires QueueInv(a, want, filled, lo, todo, d) && todo != [] && todo[0].1.Sub?
    requires lo < |want| == |filled| && filled[lo] < |want[lo]| && N == |a| + |want|
    ensures todo[0].1.handle < |a|
    ensures var x := todo[0].1.handle;
            var todo' := todo[1..] + Pair(N, a[x].kids);
            QueueInv(a, want + [a[x].kids], Bump(filled, lo) + [0], lo, todo', d) &&
            ItemsSize(a, Items(todo'), d) < ItemsSize(a, Items(todo), d)
  {
    FiniteQueueHead(a, todo, d);
    SubQueue(want, filled, |a|, lo, todo, a[todo[0].1.handle].kids);
    SubFinite(a, todo, d, N);
  }

  /** Every leaf of a sits under a node whose line has a payload the leaf
      builder accepts. */
  ghost predicate Rebuildable(a: seq<Node>, mode: LeafMode, payloads: seq<Payload>)
  {
    forall h, i :: 0 <= h < |a| && 0 <= i < |a[h].kids| && a[h].kids[i].Tip? ==>
      0 <= a[h].lineno < |payloads| && (mode == BareLeaves || payloads[a[h].lineno].morph.Some?)
  }

  /** When every leaf of the original can be rebuilt, so can the one at the
      head of the queue: its copy parent has its original's line number. */
  lemma TipRebuilds(a: seq<Node>, arena: seq<Node>, origin: seq<nat>, want: seq<seq<Item>>, filled: seq<nat>,
                    lo: nat, todo: seq<(nat, Item)>, d: nat, src: nat, spec: CopySpec)
    requires Inv(a, arena, origin, want, filled, lo, todo, d, src, spec) && todo != [] && todo[0].1.Tip?
    requires todo[0].0 == |a| + lo && HeadOk(a, arena, origin, todo[0])
    requires Rebuildable(a, spec.mode, spec.payloads)
    ensures RebuiltLeaf(spec, arena[todo[0].0].lineno, todo[0].0, todo[0].0 == |a|).Ok?
  {
    var n := todo[0].0;
    assert MirrorNode(a, arena, origin, spec, n);
    var o := origin[n - |a|];
    assert a[o].kids[|arena[n].kids|].Tip?;
  }

  /** A copy keeps every leaf rebuildable: a copied leaf was rebuilt from its
      copy parent's line. */
  lemma CopyKeepsRebuildable(a: seq<Node>, r: seq<Node>, src: nat, target: nat, spec: CopySpec)
    requires CopiedInto(a, r, src, target, spec) && Rebuildable(a, spec.mode, spec.payloads)
    ensures Rebuildable(r, spec.mode, spec.payloads)
  {
    var origin :| Mirror(a, r, origin, spec, src);
    forall h, i | 0 <= h < |r| && 0 <= i < |r[h].kids| && r[h].kids[i].Tip?
      ensures 0 <= r[h].lineno < |spec.payloads| &&
              (spec.mode == BareLeaves || spec.payloads[r[h].lineno].morph.Some?)
    {
      if h >= |a| {
        assert MirrorNode(a, r, origin, spec, h);
        assert MirrorKid(a, r, origin, spec, h, i);
      } else if h == target {
        assert i < |a[h].kids| && r[h].kids[i] == a[h].kids[i];
      } else {
        assert r[h] == a[h];
      }
    }
  }

  /** A rebuilt leaf: it is appended to its copy parent and leaves the queue. */
  lemma TipStep(a: seq<Node>, arena: seq<Node>, origin: seq<nat>, want: seq<seq<Item>>, filled: seq<nat>,
                lo: nat, todo: seq<(nat, Item)>, d: nat, src: nat, spec: CopySpec, leaf: Leaf)
    returns (filled': seq<nat>)
    requires Inv(a, arena, origin, want, filled, lo, todo, d, src, spec) && todo != [] && todo[0].1.Tip?
    requires todo[0].0 == |a| + lo && lo < |want| && filled[lo] < |want[lo]| && HeadOk(a, arena, origin, todo[0])
    requires RebuiltLeaf(spec, arena[todo[0].0].lineno, todo[0].0, todo[0].0 == |a|) == Ok(leaf)
    ensures Inv(a, Append(arena, todo[0].0, Tip(leaf)), origin, want, filled', lo, todo[1..], d, src, spec)
    ensures ItemsSize(a, Items(todo[1..]), d) < ItemsSize(a, Items(todo), d)
  {
    TipArena(a, arena, origin, want, filled, lo, src, spec, leaf, todo[0]);
    TipQueueSide(a, want, filled, lo, todo, d);
    filled' := Bump(filled, lo);
  }

  lemma TipArena(a: seq<Node>, arena: seq<Node>, origin: seq<nat>, want: seq<seq<Item>>, filled: seq<nat>,
                 lo: nat, src: nat, spec: CopySpec, leaf: Leaf, e: (nat, Item))
    requires ArenaInv(a, arena, origin, want, filled, src, spec)
    requires e.0 == |a| + lo && lo < |want| && filled[lo] < |want[lo]| && HeadOk(a, arena, origin, e) && e.1.Tip?
    requires RebuiltLeaf(spec, arena[e.0].lineno, e.0, e.0 == |a|) == Ok(leaf)
    ensures ArenaInv(a, Append(arena, e.0, Tip(leaf)), origin, want, Bump(filled, lo), src, spec)
  {
    TipFrame(a, arena, origin, src, e.0, leaf);
    TipMirrors(a, arena, origin, spec, src, e.0, leaf, e);
    TipTally(a, arena, origin, want, filled, lo, leaf);
    ShapeAfterTip(a, arena, e.0, leaf);
  }

  lemma TipQueueSide(a: seq<Node>, want: seq<seq<Item>>, filled: seq<nat>, lo: nat, todo: seq<(nat, Item)>,
                     d: nat)
    requires QueueInv(a, want, filled, lo, todo, d) && todo != [] && todo[0].1.Tip?
    requires lo < |want| == |filled| && filled[lo] < |want[lo]|
    ensures QueueInv(a, want, Bump(filled, lo), lo, todo[1..], d)
    ensures ItemsSize(a, Items(todo[1..]), d) < ItemsSize(a, Items(todo), d)
  {
    TipQueue(want, filled, |a|, lo, todo);
    TipFinite(a, todo, d);
  }

  lemma InitInv(a: seq<Node>, src: nat, spec: CopySpec, depth: nat)
    requires Closed(a) && Finite(a, src, depth)
    ensures var root := a[src];
            var arena := a + [Node(root.tag, [], root.lineno, Some(spec.edgeLabel), None, None)];
            var todo := Pair(|a|, root.kids);
            Inv(a, arena, [src], [root.kids], [0], 0, todo, depth - 1, src, spec)
  {
    var M := |a|;
    var root := a[src];
    var arena := a + [Node(root.tag, [], root.lineno, Some(spec.edgeLabel), None, None)];
    var todo := Pair(M, root.kids);
    assert arena[..M] == a;
    assert MirrorNode(a, arena, [src], spec, M);
    assert Pend([root.kids], [0], M, 0, 1) == todo by {
      assert root.kids[0..] == root.kids;
    }
    forall k | 0 <= k < |todo| && todo[k].1.Sub?
      ensures Finite(a, todo[k].1.handle, depth - 1)
    {
      PairAt(M, root.kids, k);
    }
    forall p, i | 0 <= p < |arena| && 0 <= i < |arena[p].kids|
      ensures arena[p].kids[i] != Sub(M)
      ensures arena[p].kids[i].Sub? ==> arena[p].kids[i].handle < M
    {
      assert p < M && arena[p] == a[p];
    }
    if Unshared(a) {
      PushChildlessKeepsUnshared(a, arena[M]);
    }
  }

  /** A node waiting in the queue is a node of the original arena. */
  lemma FiniteQueueHead(a: seq<Node>, todo: seq<(nat, Item)>, d: nat)
    requires QueueFinite(a, todo, d) && todo != [] && todo[0].1.Sub?
    ensures todo[0].1.handle < |a|
  {
    assert Finite(a, todo[0].1.handle, d);
  }

  /** Skips the copy nodes that are complete: the queue's head then belongs to
      copy node |a| + lo and is the next child of that node's original. */
  lemma Advance(a: seq<Node>, arena: seq<Node>, origin: seq<nat>, want: seq<seq<Item>>, filled: seq<nat>,
                lo: nat, todo: seq<(nat, Item)>, d: nat, src: nat, spec: CopySpec) returns (lo': nat)
    requires Inv(a, arena, origin, want, filled, lo, todo, d, src, spec) && todo != []
    ensures Inv(a, arena, origin, want, filled, lo', todo, d, src, spec)
    ensures lo' < |want| && filled[lo'] < |want[lo']|
    ensures todo[0].0 == |a| + lo' && todo[0].0 < |arena| && HeadOk(a, arena, origin, todo[0])
    ensures todo[0].1.Sub? ==> todo[0].1.handle < |a| && arena[todo[0].1.handle] == a[todo[0].1.handle]
  {
    if todo[0].1.Sub? {
      FiniteQueueHead(a, todo, d);
      var x := todo[0].1.handle;
      assert arena[x] == a[x] by { assert arena[..|a|][x] == arena[x]; }
    }
    lo' := Head(a, arena, origin, want, filled, lo, todo);
  }

  lemma Head(a: seq<Node>, arena: seq<Node>, origin: seq<nat>, want: seq<seq<Item>>, filled: seq<nat>,
             lo: nat, todo: seq<(nat, Item)>) returns (lo': nat)
    requires Tally(a, arena, origin, want, filled) && Queue(want, filled, |a|, lo, todo) && todo != []
    ensures Queue(want, filled, |a|, lo', todo) && lo' < |want| && filled[lo'] < |want[lo']|
    ensures todo[0].0 == |a| + lo' && todo[0].0 < |arena| && HeadOk(a, arena, origin, todo[0])
  {
    lo' := QueueHead(want, filled, |a|, lo, todo);
    TallyAt(a, arena, origin, want, filled, lo');
  }

  /** The first copy node from lo on that is still missing children owns the
      queue's head, which is its next child. */
  lemma QueueHead(want: seq<seq<Item>>, filled: seq<nat>, base: nat, lo: nat, todo: seq<(nat, Item)>)
    returns (lo': nat)
    requires Queue(want, filled, base, lo, todo) && todo != [] && |want| == |filled|
    ensures Queue(want, filled, base, lo', todo) && lo' < |want| && filled[lo'] < |want[lo']|
    ensures todo[0] == (base + lo', want[lo'][filled[lo']])
  {
    lo' := SkipDone(want, filled, base, lo, todo);
    PendHead(want, filled, base, lo', todo);
  }

  /** The head of a queue whose first node has outstanding children. */
  lemma PendHead(want: seq<seq<Item>>, filled: seq<nat>, base: nat, lo: nat, todo: seq<(nat, Item)>)
    requires lo < |want| && todo == Pend(want, filled, base, lo, |want|) && Rem(want, filled, base, lo) != []
    ensures lo < |filled| && filled[lo] < |want[lo]| && todo[0] == (base + lo, want[lo][filled[lo]])
  {
    var w := want[lo];
    var f := filled[lo];
    assert Rem(want, filled, base, lo) == Pair(base + lo, w[f..]);
    PairAt(base + lo, w[f..], 0);
  }

  lemma TallyAt(a: seq<Node>, arena: seq<Node>, origin: seq<nat>, want: seq<seq<Item>>, filled: seq<nat>,
                j: nat)
    requires Tally(a, arena, origin, want, filled) && j < |filled|
    ensures |a| + j < |arena| && origin[j] < |a| && filled[j] == |arena[|a| + j].kids| &&
            want[j] == a[origin[j]].kids
  {
  }

  lemma SkipDone(want: seq<seq<Item>>, filled: seq<nat>, base: nat, lo: nat, todo: seq<(nat, Item)>)
    returns (lo': nat)
    requires Queue(want, filled, base, lo, todo) && todo != []
    ensures Queue(want, filled, base, lo', todo) && lo' < |want|
    ensures Rem(want, filled, base, lo') != []
  {
    lo' := lo;
    while Rem(want, filled, base, lo') == []
      invariant Queue(want, filled, base, lo', todo)
      decreases |want| - lo'
    {
      if lo' == |want| {
        assert false;
      }
      assert todo == Pend(want, filled, base, lo' + 1, |want|);
      lo' := lo' + 1;
    }
    if lo' == |want| {
      assert false;
    }
  }

  lemma MirrorNodeFrame(a: seq<Node>, b1: seq<Node>, o1: seq<nat>, b2: seq<Node>, o2: seq<nat>,
                        spec: CopySpec, n: nat)
    requires MirrorNode(a, b1, o1, spec, n) && n < |b1| <= |b2| && b2[n] == b1[n]
    requires |o1| <= |o2| && o1 == o2[..|o1|] && |o1| == |b1| - |a|
    ensures MirrorNode(a, b2, o2, spec, n)
  {
    forall i | 0 <= i < |b2[n].kids|
      ensures MirrorKid(a, b2, o2, spec, n, i)
    {
      assert MirrorKid(a, b1, o1, spec, n, i);
      if b1[n].kids[i].Sub? {
        var c := b1[n].kids[i].handle;
        assert o1[c - |a|] == o2[c - |a|];
      }
    }
  }

  /** The node that just received its next child still mirrors its original. */
  lemma MirrorNodeGrow(a: seq<Node>, b1: seq<Node>, o1: seq<nat>, b2: seq<Node>, o2: seq<nat>,
                       spec: CopySpec, n: nat, x: Item)
    requires MirrorNode(a, b1, o1, spec, n) && n < |b1| <= |b2|
    requires |o1| <= |o2| && o1 == o2[..|o1|] && |o1| == |b1| - |a| && |o2| == |b2| - |a|
    requires |b1[n].kids| < |a[o1[n - |a|]].kids|
    requires b2[n] == b1[n].(kids := b1[n].kids + [x])
    requires match a[o1[n - |a|]].kids[|b1[n].kids|]
             case Sub(y) => x.Sub? && n < x.handle < |b2| && o2[x.handle - |a|] == y
             case Tip(_) => x.Tip? && RebuiltLeaf(spec, b1[n].lineno, n, n == |a|) == Ok(x.leaf)
    ensures MirrorNode(a, b2, o2, spec, n)
  {
    forall i | 0 <= i < |b2[n].kids|
      ensures MirrorKid(a, b2, o2, spec, n, i)
    {
      if i < |b1[n].kids| {
        assert MirrorKid(a, b1, o1, spec, n, i);
        if b1[n].kids[i].Sub? {
          var c := b1[n].kids[i].handle;
          assert o1[c - |a|] == o2[c - |a|];
        }
      }
    }
  }

  // --- copying a child node ---

  lemma SubFrame(a: seq<Node>, arena: seq<Node>, origin: seq<nat>, src: nat, p: nat, x: nat)
    requires Frame(a, arena, origin, src) && |a| <= p < |arena| && x < |a|
    ensures Frame(a, Append(arena + [FreshCopy(a[x])], p, Sub(|arena|)), origin + [x], src)
  {
    var arena' := Append(arena + [FreshCopy(a[x])], p, Sub(|arena|));
    forall k | 0 <= k < |a| ensures arena'[k] == a[k] {
      assert arena[..|a|][k] == arena[k];
    }
    assert arena'[..|a|] == a;
  }

  lemma SubMirrors(a: seq<Node>, arena: seq<Node>, origin: seq<nat>, spec: CopySpec, src: nat,
                   p: nat, x: nat)
    requires Frame(a, arena, origin, src) && Mirrors(a, arena, origin, spec)
    requires HeadOk(a, arena, origin, (p, Sub(x))) && x < |a|
    ensures Mirrors(a, Append(arena + [FreshCopy(a[x])], p, Sub(|arena|)), origin + [x], spec)
  {
    var N := |arena|;
    var arena' := Append(arena + [FreshCopy(a[x])], p, Sub(N));
    var origin' := origin + [x];
    assert origin == origin'[..|origin|];
    forall n | |a| <= n < |arena'|
      ensures MirrorNode(a, arena', origin', spec, n)
    {
      if n == N {
        assert arena'[n] == FreshCopy(a[x]);
      } else {
        assert MirrorNode(a, arena, origin, spec, n);
        if n == p {
          MirrorNodeGrow(a, arena, origin, arena', origin', spec, n, Sub(N));
        } else {
          MirrorNodeFrame(a, arena, origin, arena', origin', spec, n);
        }
      }
    }
  }

  lemma SubTally(a: seq<Node>, arena: seq<Node>, origin: seq<nat>, want: seq<seq<Item>>, filled: seq<nat>,
                 lo: nat, x: nat)
    requires Tally(a, arena, origin, want, filled) && lo < |want| && filled[lo] < |want[lo]| && x < |a|
    ensures Tally(a, Append(arena + [FreshCopy(a[x])], |a| + lo, Sub(|arena|)), origin + [x],
                  want + [a[x].kids], Bump(filled, lo) + [0])
  {
  }

  lemma SubQueue(want: seq<seq<Item>>, filled: seq<nat>, base: nat, lo: nat, todo: seq<(nat, Item)>,
                 w: seq<Item>)
    requires Queue(want, filled, base, lo, todo) && lo < |want| == |filled| && filled[lo] < |want[lo]|
    ensures Queue(want + [w], Bump(filled, lo) + [0], base, lo, todo[1..] + Pair(base + |want|, w))
  {
    TipQueue(want, filled, base, lo, todo);
    PushQueue(want, Bump(filled, lo), base, lo, todo[1..], w);
  }

  /** A new copy node whose original has children w: they join the end of the queue. */
  lemma PushQueue(want: seq<seq<Item>>, filled: seq<nat>, base: nat, lo: nat, todo: seq<(nat, Item)>,
                  w: seq<Item>)
    requires Queue(want, filled, base, lo, todo) && |want| == |filled|
    ensures Queue(want + [w], filled + [0], base, lo, todo + Pair(base + |want|, w))
  {
    PendPush(want, filled, base, lo, w);
    forall j | 0 <= j < lo
      ensures Rem(want + [w], filled + [0], base, j) == []
    {
      assert Rem(want, filled, base, j) == [];
      assert (want + [w])[j] == want[j] && (filled + [0])[j] == filled[j];
    }
  }

  lemma TipQueue(want: seq<seq<Item>>, filled: seq<nat>, base: nat, lo: nat, todo: seq<(nat, Item)>)
    requires Queue(want, filled, base, lo, todo) && lo < |want| == |filled| && filled[lo] < |want[lo]|
    ensures Queue(want, Bump(filled, lo), base, lo, todo[1..])
  {
    var filled' := Bump(filled, lo);
    PendAdvance(want, filled, base, lo);
    forall j | 0 <= j < lo
      ensures Rem(want, filled', base, j) == []
    {
      assert Rem(want, filled, base, j) == [];
    }
  }

  lemma SubFinite(a: seq<Node>, todo: seq<(nat, Item)>, d: nat, N: nat)
    requires QueueFinite(a, todo, d) && todo != [] && todo[0].1.Sub?
    ensures var x := todo[0].1.handle;
            x < |a| &&
            var todo' := todo[1..] + Pair(N, a[x].kids);
            QueueFinite(a, todo', d) &&
            ItemsSize(a, Items(todo'), d) < ItemsSize(a, Items(todo), d)
  {
    var x := todo[0].1.handle;
    assert Finite(a, x, d);
    var kids := a[x].kids;
    var todo' := todo[1..] + Pair(N, kids);
    forall k | 0 <= k < |todo'| && todo'[k].1.Sub?
      ensures Finite(a, todo'[k].1.handle, d)
    {
      if k >= |todo| - 1 {
        PairAt(N, kids, k - (|todo| - 1));
        assert todo'[k].1 == kids[k - (|todo| - 1)];
        FiniteMono(a, todo'[k].1.handle, d - 1, d);
      } else {
        assert todo'[k] == todo[k + 1];
      }
    }
    assert Items(todo) == [Sub(x)] + Items(todo[1..]);
    assert Items(todo') == Items(todo[1..]) + kids by {
      forall k | 0 <= k < |kids| ensures Items(todo')[|todo| - 1 + k] == kids[k] {
        PairAt(N, kids, k);
      }
    }
    ItemsSizeAppend(a, [Sub(x)], Items(todo[1..]), d);
    ItemsSizeAppend(a, Items(todo[1..]), kids, d);
    ItemsSizeStable(a, kids, d - 1, d);
  }

  /** Attaching a fresh node keeps the arena closed, the copy root unreferenced
      and, when it held, nothing shared. */
  lemma ShapeAfterSub(a: seq<Node>, arena: seq<Node>, p: nat, N: nat, x: nat)
    requires |a| < |arena| == N && |a| <= p < N && x < |a|
    requires Shape(a, arena)
    ensures Shape(a, Append(arena + [FreshCopy(a[x])], p, Sub(N)))
  {
    var grown := arena + [FreshCopy(a[x])];
    var arena' := Append(grown, p, Sub(N));
    forall q, i | 0 <= q < |grown| && 0 <= i < |grown[q].kids|
      ensures grown[q].kids[i] != Sub(N) && grown[q].kids[i] != Sub(|a|)
      ensures grown[q].kids[i].Sub? ==> grown[q].kids[i].handle < N
    {
      assert q < N && grown[q] == arena[q];
    }
    if Unshared(a) {
      PushChildlessKeepsUnshared(arena, FreshCopy(a[x]));
      AppendFreshKeepsUnshared(grown, p, N);
    }
    forall q, i | 0 <= q < |arena'| && 0 <= i < |arena'[q].kids|
      ensures arena'[q].kids[i] != Sub(|a|)
      ensures arena'[q].kids[i].Sub? ==> arena'[q].kids[i].handle < |arena'|
    {
      if !(q == p && i == |grown[p].kids|) {
        assert arena'[q].kids[i] == grown[q].kids[i];
      }
    }
  }

  // --- copying a leaf ---

  lemma TipFrame(a: seq<Node>, arena: seq<Node>, origin: seq<nat>, src: nat, p: nat, leaf: Leaf)
    requires Frame(a, arena, origin, src) && |a| <= p < |arena|
    ensures Frame(a, Append(arena, p, Tip(leaf)), origin, src)
  {
    var arena' := Append(arena, p, Tip(leaf));
    forall k | 0 <= k < |a| ensures arena'[k] == a[k] {
      assert arena[..|a|][k] == arena[k];
    }
    assert arena'[..|a|] == a;
  }

  lemma TipMirrors(a: seq<Node>, arena: seq<Node>, origin: seq<nat>, spec: CopySpec, src: nat,
                   p: nat, leaf: Leaf, e: (nat, Item))
    requires Frame(a, arena, origin, src) && Mirrors(a, arena, origin, spec)
    requires HeadOk(a, arena, origin, e) && e.0 == p && e.1.Tip?
    requires RebuiltLeaf(spec, arena[p].lineno, p, p == |a|) == Ok(leaf)
    ensures Mirrors(a, Append(arena, p, Tip(leaf)), origin, spec)
  {
    var arena' := Append(arena, p, Tip(leaf));
    assert origin == origin[..|origin|];
    forall n | |a| <= n < |arena'|
      ensures MirrorNode(a, arena', origin, spec, n)
    {
      assert MirrorNode(a, arena, origin, spec, n);
      if n == p {
        MirrorNodeGrow(a, arena, origin, arena', origin, spec, n, Tip(leaf));
      } else {
        MirrorNodeFrame(a, arena, origin, arena', origin, spec, n);
      }
    }
  }

  lemma TipTally(a: seq<Node>, arena: seq<Node>, origin: seq<nat>, want: seq<seq<Item>>, filled: seq<nat>,
                 lo: nat, leaf: Leaf)
    requires Tally(a, arena, origin, want, filled) && lo < |want| && filled[lo] < |want[lo]|
    ensures Tally(a, Append(arena, |a| + lo, Tip(leaf)), origin, want, Bump(filled, lo))
  {
  }

  lemma TipFinite(a: seq<Node>, todo: seq<(nat, Item)>, d: nat)
    requires QueueFinite(a, todo, d) && todo != [] && todo[0].1.Tip?
    ensures QueueFinite(a, todo[1..], d)
    ensures ItemsSize(a, Items(todo[1..]), d) < ItemsSize(a, Items(todo), d)
  {
    forall k | 0 <= k < |todo[1..]| && todo[1..][k].1.Sub?
      ensures Finite(a, todo[1..][k].1.handle, d)
    {
      assert todo[1..][k] == todo[k + 1];
    }
    assert Items(todo) == [todo[0].1] + Items(todo[1..]);
    ItemsSizeAppend(a, [todo[0].1], Items(todo[1..]), d);
  }

  lemma ShapeAfterTip(a: seq<Node>, arena: seq<Node>, p: nat, leaf: Leaf)
    requires |a| <= p < |arena| && Shape(a, arena)
    ensures Shape(a, Append(arena, p, Tip(leaf)))
  {
    var arena' := Append(arena, p, Tip(leaf));
    forall q, i | 0 <= q < |arena'| && 0 <= i < |arena'[q].kids|
      ensures arena'[q].kids[i] != Sub(|a|)
      ensures arena'[q].kids[i].Sub? ==> arena'[q].kids[i].handle < |arena'|
    {
      if !(q == p && i == |arena[p].kids|) {
        assert arena'[q].kids[i] == arena[q].kids[i];
      }
    }
    if Unshared(a) {
      AppendTipKeepsUnshared(arena, p, leaf);
    }
  }

  /** The queue is empty: every copy node is complete, and attaching the copy's
      root to target gives CopiedInto. */
  lemma Finish(a: seq<Node>, done: seq<Node>, r: seq<Node>, origin: seq<nat>, want: seq<seq<Item>>,
               filled: seq<nat>, spec: CopySpec, src: nat, target: nat, lo: nat, d: nat)
    requires Inv(a, done, origin, want, filled, lo, [], d, src, spec)
    requires target < |a|
    requires r == Append(done, target, Sub(|a|))
    ensures CopiedInto(a, r, src, target, spec) && Closed(r)
    ensures Unshared(a) ==> Unshared(r)
  {
    Attach(a, done, r, origin, want, filled, spec, src, target, lo);
  }

  lemma Attach(a: seq<Node>, done: seq<Node>, r: seq<Node>, origin: seq<nat>, want: seq<seq<Item>>,
               filled: seq<nat>, spec: CopySpec, src: nat, target: nat, lo: nat)
    requires Frame(a, done, origin, src) && Mirrors(a, done, origin, spec)
    requires Tally(a, done, origin, want, filled) && Queue(want, filled, |a|, lo, [])
    requires Shape(a, done) && target < |a|
    requires r == Append(done, target, Sub(|a|))
    ensures CopiedInto(a, r, src, target, spec) && Closed(r)
    ensures Unshared(a) ==> Unshared(r)
  {
    Complete(a, done, origin, want, filled, lo);
    MirrorAttached(a, done, r, origin, spec, src, target);
    FrameAttached(a, done, r, origin, src, target);
    ShapeAttached(a, done, r, target);
  }

  /** With the queue empty, every copy node has all its original's children. */
  lemma Complete(a: seq<Node>, done: seq<Node>, origin: seq<nat>, want: seq<seq<Item>>, filled: seq<nat>,
                 lo: nat)
    requires Tally(a, done, origin, want, filled) && Queue(want, filled, |a|, lo, [])
    ensures forall n :: |a| <= n < |done| ==> |done[n].kids| == |a[origin[n - |a|]].kids|
  {
    AllFilled(want, filled, |a|, lo);
    forall n | |a| <= n < |done|
      ensures |done[n].kids| == |a[origin[n - |a|]].kids|
    {
      TallyAt(a, done, origin, want, filled, n - |a|);
    }
  }

  /** An empty queue means every copy node has received all its children. */
  lemma AllFilled(want: seq<seq<Item>>, filled: seq<nat>, base: nat, lo: nat)
    requires Queue(want, filled, base, lo, []) && |want| == |filled|
    requires forall j :: 0 <= j < |filled| ==> filled[j] <= |want[j]|
    ensures forall j :: 0 <= j < |filled| ==> filled[j] == |want[j]|
  {
    forall j | 0 <= j < |filled|
      ensures filled[j] == |want[j]|
    {
      if j >= lo {
        PendEmpty(want, filled, base, lo, |want|, j);
      }
      RemEmpty(want, filled, base, j);
    }
  }

  lemma RemEmpty(want: seq<seq<Item>>, filled: seq<nat>, base: nat, j: nat)
    requires j < |want| == |filled| && filled[j] <= |want[j]| && Rem(want, filled, base, j) == []
    ensures filled[j] == |want[j]|
  {
    assert |Pair(base + j, want[j][filled[j]..])| == 0;
  }

  lemma MirrorAttached(a: seq<Node>, done: seq<Node>, r: seq<Node>, origin: seq<nat>, spec: CopySpec,
                       src: nat, target: nat)
    requires Frame(a, done, origin, src) && Mirrors(a, done, origin, spec) && target < |a|
    requires forall n :: |a| <= n < |done| ==> |done[n].kids| == |a[origin[n - |a|]].kids|
    requires r == Append(done, target, Sub(|a|))
    ensures Mirror(a, r, origin, spec, src)
  {
    assert origin == origin[..|origin|];
    forall n | |a| <= n < |r|
      ensures MirrorNode(a, r, origin, spec, n) && |r[n].kids| == |a[origin[n - |a|]].kids|
    {
      assert MirrorNode(a, done, origin, spec, n);
      MirrorNodeFrame(a, done, origin, r, origin, spec, n);
    }
  }

  lemma FrameAttached(a: seq<Node>, done: seq<Node>, r: seq<Node>, origin: seq<nat>, src: nat, target: nat)
    requires Frame(a, done, origin, src) && target < |a|
    requires r == Append(done, target, Sub(|a|))
    ensures |r| > |a| && r[target] == a[target].(kids := a[target].kids + [Sub(|a|)])
    ensures forall k :: 0 <= k < |a| && k != target ==> r[k] == a[k]
  {
    forall k | 0 <= k < |a|
      ensures done[k] == a[k]
    {
      assert done[k] == done[..|a|][k];
    }
  }

  lemma ShapeAttached(a: seq<Node>, done: seq<Node>, r: seq<Node>, target: nat)
    requires Shape(a, done) && target < |a| < |done|
    requires r == Append(done, target, Sub(|a|))
    ensures Closed(r) && (Unshared(a) ==> Unshared(r))
  {
    forall p, i | 0 <= p < |r| && 0 <= i < |r[p].kids| && r[p].kids[i].Sub?
      ensures r[p].kids[i].handle < |r|
    {
      if !(p == target && i == |done[target].kids|) {
        assert r[p].kids[i] == done[p].kids[i];
      }
    }
    if Unshared(a) {
      AppendFreshKeepsUnshared(done, target, |a|);
    }
  }
}
