/** Second pass of the NEGRA tree builder: the terminal rows, in grid order.
    Each becomes a unary node labelled with its part of speech over the leaf the
    leaf builder makes, appended to its parent's node.  Whenever the parent
    changes, the previous parent's ancestors are attached to their own parents,
    climbing until the root. */
module NegraTerminals {
  import opened Arena
  import opened PyStr
  import opened NegraRegister

  /** Every registered number names a node of an arena with n nodes. */
  predicate Handles(nodes: map<int, nat>, n: nat)
  {
    forall w :: w in nodes ==> nodes[w] < n
  }

  /** r only adds to a: the nodes of a keep their fields, their children lists
      are extended at the end, and new nodes may follow. */
  ghost predicate Grows(a: seq<Node>, r: seq<Node>)
  {
    |a| <= |r| &&
    forall h :: 0 <= h < |a| ==> r[h] == a[h].(kids := r[h].kids) && a[h].kids <= r[h].kids
  }

  lemma GrowsTrans(a: seq<Node>, b: seq<Node>, c: seq<Node>)
    requires Grows(a, b) && Grows(b, c)
    ensures Grows(a, c)
  {
    forall h | 0 <= h < |a|
      ensures c[h] == a[h].(kids := c[h].kids) && a[h].kids <= c[h].kids
    {
      assert b[h].kids <= c[h].kids;
    }
  }

  lemma AppendGrows(a: seq<Node>, p: nat, x: Item)
    requires p < |a|
    ensures Grows(a, Append(a, p, x))
  {
  }

  // ---------------------------------------------------------------------------
  // Closing a chunk: the ancestor walk
  // ---------------------------------------------------------------------------

  /** The walk from number `node` up to the root `top`: each number met is
      attached to its parent's node unless that node already has it as a child
      (handle membership stands for the source's list-equality test).  The
      source's loop has no bound; the walk here gives up with Hang after `fuel`
      steps, and a missing number raises KeyError. */
  function Climb(a: seq<Node>, nodes: map<int, nat>, parents: map<int, int>, top: int,
                 node: int, fuel: nat): (r: Pass<seq<Node>>)
    requires Handles(nodes, |a|)
    ensures r.Next? ==> |r.value| == |a|
    ensures r.Stop? ==> r.outcome == Hang || r.outcome == Crash(KeyError)
    decreases fuel
  {
    if node == top then Next(a)
    else if fuel == 0 then Stop(Hang)
    else if node !in parents || node !in nodes || parents[node] !in nodes then Stop(Crash(KeyError))
    else
      var up := parents[node];
      var kid := Sub(nodes[node]);
      var a' := if kid in a[nodes[up]].kids then a else Append(a, nodes[up], kid);
      Climb(a', nodes, parents, top, up, fuel - 1)
  }

  /** The numbers the walk attaches (or finds attached), from `node` upwards,
      the root excluded. */
  ghost function Chain(nodes: map<int, nat>, parents: map<int, int>, top: int, node: int, fuel: nat): seq<int>
    decreases fuel
  {
    if node == top || fuel == 0 || node !in parents || node !in nodes || parents[node] !in nodes then []
    else [node] + Chain(nodes, parents, top, parents[node], fuel - 1)
  }

  /** The ancestor walk of the source, closing the chunk whose parent was `last`. */
  method CloseChunk(a: seq<Node>, nodes: map<int, nat>, parents: map<int, int>, top: int, last: int)
    returns (r: Pass<seq<Node>>)
    requires Handles(nodes, |a|)
    ensures r == Climb(a, nodes, parents, top, last, |parents|)
  {
    var arena := a;
    var node := last;
    var fuel: nat := |parents|;
    while node != top
      invariant |arena| == |a|
      invariant Climb(arena, nodes, parents, top, node, fuel) == Climb(a, nodes, parents, top, last, |parents|)
      decreases fuel
    {
      if fuel == 0 {
        return Stop(Hang);
      }
      if node !in parents || node !in nodes || parents[node] !in nodes {
        return Stop(Crash(KeyError));
      }
      var up := parents[node];
      if Sub(nodes[node]) !in arena[nodes[up]].kids {
        arena := Append(arena, nodes[up], Sub(nodes[node]));
      }
      node := up;
      fuel := fuel - 1;
    }
    return Next(arena);
  }

  /** The walk only adds children. */
  lemma {:induction false} ClimbGrows(a: seq<Node>, nodes: map<int, nat>, parents: map<int, int>, top: int,
                                      node: int, fuel: nat)
    requires Handles(nodes, |a|) && Climb(a, nodes, parents, top, node, fuel).Next?
    ensures Grows(a, Climb(a, nodes, parents, top, node, fuel).value)
    decreases fuel
  {
    if node != top {
      var up := parents[node];
      var kid := Sub(nodes[node]);
      var a' := if kid in a[nodes[up]].kids then a else Append(a, nodes[up], kid);
      ClimbGrows(a', nodes, parents, top, up, fuel - 1);
      GrowsTrans(a, a', Climb(a, nodes, parents, top, node, fuel).value);
    }
  }

  /** After the walk every number it met is a child of its parent's node. */
  lemma {:induction false} ClimbAttaches(a: seq<Node>, nodes: map<int, nat>, parents: map<int, int>, top: int,
                                         node: int, fuel: nat)
    requires Handles(nodes, |a|) && Climb(a, nodes, parents, top, node, fuel).Next?
    ensures var r := Climb(a, nodes, parents, top, node, fuel).value;
            forall x :: x in Chain(nodes, parents, top, node, fuel) ==>
              x in nodes && x in parents && parents[x] in nodes && nodes[parents[x]] < |r| &&
              Sub(nodes[x]) in r[nodes[parents[x]]].kids
    decreases fuel
  {
    if node != top {
      var up := parents[node];
      var kid := Sub(nodes[node]);
      var a' := if kid in a[nodes[up]].kids then a else Append(a, nodes[up], kid);
      var r := Climb(a, nodes, parents, top, node, fuel).value;
      ClimbAttaches(a', nodes, parents, top, up, fuel - 1);
      ClimbGrows(a', nodes, parents, top, up, fuel - 1);
      assert kid in a'[nodes[up]].kids;
      assert a'[nodes[up]].kids <= r[nodes[up]].kids;
    }
  }

  /** No child handle occurs twice in the list. */
  predicate NoRepeats(ks: seq<Item>)
  {
    forall i, j :: 0 <= i < j < |ks| && ks[i].Sub? ==> ks[i] != ks[j]
  }

  /** The walk attaches a number at most once: it never repeats a child. */
  lemma {:induction false} ClimbNoRepeats(a: seq<Node>, nodes: map<int, nat>, parents: map<int, int>, top: int,
                                          node: int, fuel: nat, p: nat)
    requires Handles(nodes, |a|) && Climb(a, nodes, parents, top, node, fuel).Next?
    requires p < |a| && NoRepeats(a[p].kids)
    ensures NoRepeats(Climb(a, nodes, parents, top, node, fuel).value[p].kids)
    decreases fuel
  {
    if node != top {
      var up := parents[node];
      var kid := Sub(nodes[node]);
      var a' := if kid in a[nodes[up]].kids then a else Append(a, nodes[up], kid);
      ClimbNoRepeats(a', nodes, parents, top, up, fuel - 1, p);
    }
  }

  // ---------------------------------------------------------------------------
  // One terminal row
  // ---------------------------------------------------------------------------

  /** The pass's state: the arena and the previous terminal's parent number. */
  datatype TState = TState(arena: seq<Node>, last: Option<int>)

  /** What the leaf builder reads from a terminal row. */
  function RowPayload(row: Row): Payload
  {
    Payload(row.words, row.pos, row.morph, row.lemmaForm, row.edge, row.secedge, row.comment)
  }

  /** The copy of a row the leaf builder reads for its secondary edge: the
      secondary edge label as edge, and empty secondary edge and comment. */
  function SecedgePayload(row: Row): Payload
  {
    Payload(row.words, row.pos, row.morph, row.lemmaForm, row.secedge, Some(""), Some(""))
  }

  /** The unary node at handle h over the leaf the leaf builder makes; None
      when the builder raises KeyError. */
  function UnaryNode(mode: LeafMode, p: Payload, lineno: nat, h: nat, edge: Option<string>,
                     secedge: Option<string>, comment: Option<string>): Option<Node>
  {
    match MakeLeaf(mode, p, lineno, h)
    case None => None
    case Some(l) => Some(Node(p.tag, [Tip(l)], lineno, edge, secedge, comment))
  }

  /** The comment of a terminal's secondary edge names its second parent. */
  predicate SecondParentOk(row: Row)
  {
    row.comment.Some? && IsDigits(row.comment.value)
  }

  /** The extra unary node for a terminal's secondary edge, appended to the
      node its comment names (0 naming the root).  A comment that is missing,
      empty or not a number rejects the sentence. */
  function SecedgeNode(a: seq<Node>, reg: Reg, top: int, lineno: nat, row: Row, mode: LeafMode): (r: Pass<seq<Node>>)
    requires Handles(reg.nodes, |a|)
    ensures r.Next? ==> |r.value| == |a| + 1
    ensures r.Stop? ==> !r.outcome.Built?
  {
    if !SecondParentOk(row) then Stop(NoTree)
    else
      match UnaryNode(mode, SecedgePayload(row), lineno, |a|, row.secedge, None, None)
      case None => Stop(Crash(KeyError))
      case Some(n) =>
        var t := DigitsValue(row.comment.value);
        var target := if t == 0 then top else t;
        if target !in reg.nodes then Stop(Crash(KeyError))
        else Next(Append(a + [n], reg.nodes[target], Sub(|a|)))
  }

  /** The row's unary node appended to the node of number `parent`, then its
      secondary-edge node if secondary edges are copied. */
  function PlaceTerminal(a: seq<Node>, reg: Reg, top: int, parent: int, lineno: nat, row: Row, mode: LeafMode,
                         secedgeCopy: bool): (r: Pass<seq<Node>>)
    requires Handles(reg.nodes, |a|)
    ensures r.Next? ==> |a| < |r.value|
    ensures r.Stop? ==> !r.outcome.Built?
  {
    match UnaryNode(mode, RowPayload(row), lineno, |a|, row.edge,
                    if secedgeCopy then None else row.secedge,
                    if secedgeCopy then None else row.comment)
    case None => Stop(Crash(KeyError))
    case Some(n) =>
      if parent !in reg.nodes then Stop(Crash(KeyError))
      else
        var a2 := Append(a + [n], reg.nodes[parent], Sub(|a|));
        if !(secedgeCopy && HasSecedge(row)) then Next(a2)
        else SecedgeNode(a2, reg, top, lineno, row, mode)
  }

  /** One terminal row at line `lineno`: close the previous chunk if the parent
      changes, then place the row's nodes under its parent (0 meaning the
      root). */
  function TerminalStep(st: TState, reg: Reg, top: int, lineno: nat, row: Row, mode: LeafMode,
                        secedgeCopy: bool): (r: Pass<TState>)
    requires Handles(reg.nodes, |st.arena|)
    ensures r.Next? ==> |st.arena| < |r.value.arena|
    ensures r.Stop? ==> !r.outcome.Built?
  {
    match ParentOf(row)
    case None => Stop(Crash(ValueError))
    case Some(p) =>
      var parent := if p == 0 then top else p;
      var closed := if st.last.Some? && parent != st.last.value
                    then Climb(st.arena, reg.nodes, reg.parents, top, st.last.value, |reg.parents|)
                    else Next(st.arena);
      match closed
      case Stop(o) => Stop(o)
      case Next(a1) =>
        match PlaceTerminal(a1, reg, top, parent, lineno, row, mode, secedgeCopy)
        case Stop(o) => Stop(o)
        case Next(a3) => Next(TState(a3, Some(parent)))
  }

  /** The secondary-edge node: the row's tag over its leaf, with the secondary
      edge label as edge, last child of the node its comment names (0 naming
      the root); a comment that is not a number gives None. */
  lemma SecedgeNodeShape(a: seq<Node>, reg: Reg, top: int, lineno: nat, row: Row, mode: LeafMode)
    requires Handles(reg.nodes, |a|)
    ensures var r := SecedgeNode(a, reg, top, lineno, row, mode);
            (r.Next? ==> SecondParentOk(row) && r.value[|a|].tag == row.pos && r.value[|a|].edge == row.secedge &&
                         r.value[|a|].lineno == lineno &&
                         var t := DigitsValue(row.comment.value);
                         var target := if t == 0 then top else t;
                         target in reg.nodes && r.value[reg.nodes[target]].kids[|r.value[reg.nodes[target]].kids| - 1] == Sub(|a|)) &&
            (r.Stop? ==> (r.outcome == NoTree <==> !SecondParentOk(row)) &&
                         (r.outcome == NoTree || r.outcome == Crash(KeyError)))
  {
  }

  /** Placing a terminal: its unary node (the row's tag over one leaf showing
      the row's word) becomes the last child of its parent's node at the time;
      only the leaf builder, an unknown number or a malformed second parent can
      stop it. */
  lemma PlaceTerminalShape(a: seq<Node>, reg: Reg, top: int, parent: int, lineno: nat, row: Row, mode: LeafMode,
                           secedgeCopy: bool)
    requires Handles(reg.nodes, |a|)
    ensures var r := PlaceTerminal(a, reg, top, parent, lineno, row, mode, secedgeCopy);
            (r.Next? ==> |r.value| == (if secedgeCopy && HasSecedge(row) then |a| + 2 else |a| + 1) &&
                         parent in reg.nodes && Sub(|a|) in r.value[reg.nodes[parent]].kids &&
                         r.value[|a|].tag == row.pos && r.value[|a|].lineno == lineno &&
                         r.value[|a|].edge == row.edge && |r.value[|a|].kids| == 1 &&
                         r.value[|a|].kids[0].Tip? && LeafText(r.value[|a|].kids[0].leaf) == row.words) &&
            (r.Stop? ==> r.outcome == Crash(KeyError) ||
                         (r.outcome == NoTree && secedgeCopy && HasSecedge(row) && !SecondParentOk(row)))
  {
    var node := UnaryNode(mode, RowPayload(row), lineno, |a|, row.edge,
                          if secedgeCopy then None else row.secedge,
                          if secedgeCopy then None else row.comment);
    if node.Some? && parent in reg.nodes && secedgeCopy && HasSecedge(row) {
      var a2 := Append(a + [node.value], reg.nodes[parent], Sub(|a|));
      SecedgeNodeShape(a2, reg, top, lineno, row, mode);
      var r := PlaceTerminal(a, reg, top, parent, lineno, row, mode, secedgeCopy);
      if r.Next? {
        assert Sub(|a|) in a2[reg.nodes[parent]].kids;
        assert r.value[reg.nodes[parent]].kids[..|a2[reg.nodes[parent]].kids|] == a2[reg.nodes[parent]].kids;
      }
    }
  }

  /** The state after the first n terminal rows. */
  function Terminals(terms: seq<Row>, n: nat, reg: Reg, top: int, mode: LeafMode, secedgeCopy: bool): (r: Pass<TState>)
    requires n <= |terms| && Handles(reg.nodes, |reg.arena|)
    ensures r.Next? ==> |reg.arena| <= |r.value.arena|
    ensures r.Stop? ==> !r.outcome.Built?
    decreases n
  {
    if n == 0 then Next(TState(reg.arena, None))
    else
      match Terminals(terms, n - 1, reg, top, mode, secedgeCopy)
      case Stop(o) => Stop(o)
      case Next(st) => TerminalStep(st, reg, top, n - 1, terms[n - 1], mode, secedgeCopy)
  }

  /** Once the pass stops, it stays stopped. */
  lemma {:induction false} StopStays(terms: seq<Row>, k: nat, n: nat, reg: Reg, top: int, mode: LeafMode,
                                     secedgeCopy: bool)
    requires k <= n <= |terms| && Handles(reg.nodes, |reg.arena|)
    requires Terminals(terms, k, reg, top, mode, secedgeCopy).Stop?
    ensures Terminals(terms, n, reg, top, mode, secedgeCopy) == Terminals(terms, k, reg, top, mode, secedgeCopy)
    decreases n - k
  {
    if k < n {
      StopStays(terms, k, n - 1, reg, top, mode, secedgeCopy);
    }
  }

  /** The terminal loop of the source over the rows before the non-terminals. */
  method AttachTerminals(terms: seq<Row>, reg: Reg, top: int, mode: LeafMode, secedgeCopy: bool)
    returns (r: Pass<TState>)
    requires Handles(reg.nodes, |reg.arena|)
    ensures r == Terminals(terms, |terms|, reg, top, mode, secedgeCopy)
  {
    var arena := reg.arena;
    var last: Option<int> := None;
    for lineno := 0 to |terms|
      invariant Terminals(terms, lineno, reg, top, mode, secedgeCopy) == Next(TState(arena, last))
      invariant Handles(reg.nodes, |arena|)
    {
      var row := terms[lineno];
      assert Terminals(terms, lineno + 1, reg, top, mode, secedgeCopy) ==
             TerminalStep(TState(arena, last), reg, top, lineno, row, mode, secedgeCopy);
      var r1 := MakeTerminal(TState(arena, last), reg, top, lineno, row, mode, secedgeCopy);
      if r1.Stop? {
        StopStays(terms, lineno + 1, |terms|, reg, top, mode, secedgeCopy);
        return r1;
      }
      arena, last := r1.value.arena, r1.value.last;
    }
    return Next(TState(arena, last));
  }

  /** The body of the terminal loop for one row. */
  method MakeTerminal(st: TState, reg: Reg, top: int, lineno: nat, row: Row, mode: LeafMode, secedgeCopy: bool)
    returns (r: Pass<TState>)
    requires Handles(reg.nodes, |st.arena|)
    ensures r == TerminalStep(st, reg, top, lineno, row, mode, secedgeCopy)
  {
    var arena := st.arena;
    var p := ParentOf(row);
    if p.None? {
      return Stop(Crash(ValueError));
    }
    var parent := if p.value == 0 then top else p.value;
    if st.last.Some? && parent != st.last.value {
      var closed := CloseChunk(arena, reg.nodes, reg.parents, top, st.last.value);
      if closed.Stop? {
        return Stop(closed.outcome);
      }
      arena := closed.value;
    }
    var placed := Place(arena, reg, top, parent, lineno, row, mode, secedgeCopy);
    if placed.Stop? {
      return Stop(placed.outcome);
    }
    return Next(TState(placed.value, Some(parent)));
  }

  /** The appends of the terminal loop for one row, after the chunk check. */
  method Place(a: seq<Node>, reg: Reg, top: int, parent: int, lineno: nat, row: Row, mode: LeafMode,
               secedgeCopy: bool) returns (r: Pass<seq<Node>>)
    requires Handles(reg.nodes, |a|)
    ensures r == PlaceTerminal(a, reg, top, parent, lineno, row, mode, secedgeCopy)
  {
    var h := |a|;
    var node := UnaryNode(mode, RowPayload(row), lineno, h, row.edge,
                          if secedgeCopy then None else row.secedge,
                          if secedgeCopy then None else row.comment);
    if node.None? || parent !in reg.nodes {
      return Stop(Crash(KeyError));
    }
    var arena := Append(a + [node.value], reg.nodes[parent], Sub(h));
    if secedgeCopy && HasSecedge(row) {
      if !SecondParentOk(row) {
        return Stop(NoTree);
      }
      var h2 := |arena|;
      var node2 := UnaryNode(mode, SecedgePayload(row), lineno, h2, row.secedge, None, None);
      var t := DigitsValue(row.comment.value);
      var target := if t == 0 then top else t;
      if node2.None? || target !in reg.nodes {
        return Stop(Crash(KeyError));
      }
      arena := Append(arena + [node2.value], reg.nodes[target], Sub(h2));
    }
    return Next(arena);
  }

  // ---------------------------------------------------------------------------
  // What the terminal pass keeps
  // ---------------------------------------------------------------------------

  /** Registered handle h is a child of p only where the walk puts it: p is the
      node of the parent of h's number, and h is the live node of its number. */
  ghost predicate PlacedUnder(reg: Reg, h: nat, p: nat)
  {
    h < |reg.ids| && reg.ids[h] in reg.nodes && reg.nodes[reg.ids[h]] == h &&
    reg.ids[h] in reg.parents && reg.parents[reg.ids[h]] in reg.nodes &&
    p == reg.nodes[reg.parents[reg.ids[h]]]
  }

  ghost predicate Placed(a: seq<Node>, reg: Reg)
  {
    forall p, i :: (0 <= p < |a| && 0 <= i < |a[p].kids| && a[p].kids[i].Sub? &&
                    a[p].kids[i].handle < |reg.arena|) ==> PlacedUnder(reg, a[p].kids[i].handle, p)
  }

  /** In every child list the nodes made from `from` on appear in creation
      order, which is grid order. */
  ghost predicate InOrder(a: seq<Node>, from: nat)
  {
    forall p, i, j :: (0 <= p < |a| && 0 <= i < j < |a[p].kids| && a[p].kids[i].Sub? &&
                       a[p].kids[j].Sub? && from <= a[p].kids[i].handle && from <= a[p].kids[j].handle) ==>
                        a[p].kids[i].handle < a[p].kids[j].handle
  }

  /** The invariant of the terminal pass: the registered nodes keep their
      fields, every child handle names a node, no node is a child twice,
      registered nodes sit only under their parent's node, terminal nodes are
      in grid order under each parent, and the root is nobody's child. */
  ghost predicate TermInv(a: seq<Node>, reg: Reg, top: int)
  {
    RegValid(reg) && reg.top == Some(top) && Grows(reg.arena, a) && Handles(reg.nodes, |a|) &&
    Closed(a) && Unshared(a) && Placed(a, reg) && InOrder(a, |reg.arena|) && Unreferenced(a, reg.nodes[top])
  }

  lemma InitTermInv(reg: Reg, top: int)
    requires RegValid(reg) && reg.top == Some(top)
    ensures TermInv(reg.arena, reg, top)
  {
  }

  lemma PushUnaryKeepsUnshared(a: seq<Node>, n: Node)
    requires Unshared(a) && forall i :: 0 <= i < |n.kids| ==> n.kids[i].Tip?
    ensures Unshared(a + [n])
  {
    var r := a + [n];
    forall q, i, q', j |
      0 <= q < |r| && 0 <= i < |r[q].kids| && 0 <= q' < |r| && 0 <= j < |r[q'].kids| &&
      r[q].kids[i].Sub? && r[q].kids[i] == r[q'].kids[j]
      ensures q == q' && i == j
    {
      assert q < |a| && q' < |a|;
      assert r[q] == a[q] && r[q'] == a[q'];
    }
  }

  /** A new unary node over a leaf, appended as the last child of node q. */
  lemma PushUnaryKeeps(a: seq<Node>, reg: Reg, top: int, n: Node, q: nat)
    requires TermInv(a, reg, top) && q < |a| && forall i :: 0 <= i < |n.kids| ==> n.kids[i].Tip?
    ensures TermInv(Append(a + [n], q, Sub(|a|)), reg, top)
  {
    var b := a + [n];
    var r := Append(b, q, Sub(|a|));
    PushUnaryKeepsUnshared(a, n);
    assert Unreferenced(b, |a|) by {
      forall p, i | 0 <= p < |b| && 0 <= i < |b[p].kids|
        ensures b[p].kids[i] != Sub(|a|)
      {
        if p < |a| {
          assert b[p] == a[p];
        }
      }
    }
    AppendFreshKeepsUnshared(b, q, |a|);
    assert Grows(a, b);
    AppendGrows(b, q, Sub(|a|));
    GrowsTrans(a, b, r);
    GrowsTrans(reg.arena, a, r);
    PushUnaryRest(a, reg, top, n, q);
  }

  lemma PushUnaryRest(a: seq<Node>, reg: Reg, top: int, n: Node, q: nat)
    requires TermInv(a, reg, top) && q < |a| && forall i :: 0 <= i < |n.kids| ==> n.kids[i].Tip?
    ensures var r := Append(a + [n], q, Sub(|a|));
            Closed(r) && Placed(r, reg) && InOrder(r, |reg.arena|) && Unreferenced(r, reg.nodes[top])
  {
    var r := Append(a + [n], q, Sub(|a|));
    assert reg.nodes[top] < |reg.arena| <= |a|;
    forall p, i | 0 <= p < |r| && 0 <= i < |r[p].kids| && r[p].kids[i].Sub?
      ensures r[p].kids[i].handle < |r|
      ensures r[p].kids[i].handle < |reg.arena| ==> PlacedUnder(reg, r[p].kids[i].handle, p)
      ensures r[p].kids[i] != Sub(reg.nodes[top])
    {
      if !(p == q && i == |a[q].kids|) {
        assert r[p].kids[i] == a[p].kids[i];
      }
    }
    forall p, i, j | 0 <= p < |r| && 0 <= i < j < |r[p].kids| && r[p].kids[i].Sub? &&
                     r[p].kids[j].Sub? && |reg.arena| <= r[p].kids[i].handle && |reg.arena| <= r[p].kids[j].handle
      ensures r[p].kids[i].handle < r[p].kids[j].handle
    {
      assert r[p].kids[i] == a[p].kids[i];
      if !(p == q && j == |a[q].kids|) {
        assert r[p].kids[j] == a[p].kids[j];
      }
    }
  }

  /** One step of the walk: number `node` attached under its parent's node
      unless already there. */
  lemma AttachKeeps(a: seq<Node>, reg: Reg, top: int, node: int, up: int)
    requires TermInv(a, reg, top) && node != top
    requires node in reg.parents && node in reg.nodes && up == reg.parents[node] && up in reg.nodes
    requires Sub(reg.nodes[node]) !in a[reg.nodes[up]].kids
    ensures TermInv(Append(a, reg.nodes[up], Sub(reg.nodes[node])), reg, top)
  {
    var q := reg.nodes[up];
    var h := reg.nodes[node];
    var r := Append(a, q, Sub(h));
    assert reg.ids[h] == node;
    assert Unreferenced(a, h) by {
      forall p, i | 0 <= p < |a| && 0 <= i < |a[p].kids|
        ensures a[p].kids[i] != Sub(h)
      {
        if a[p].kids[i] == Sub(h) {
          assert false;
        }
      }
    }
    AppendFreshKeepsUnshared(a, q, h);
    AppendGrows(a, q, Sub(h));
    GrowsTrans(reg.arena, a, r);
    assert reg.ids[reg.nodes[top]] == top;
    AttachRest(a, reg, top, node, up);
  }

  lemma AttachRest(a: seq<Node>, reg: Reg, top: int, node: int, up: int)
    requires TermInv(a, reg, top)
    requires node in reg.parents && node in reg.nodes && up == reg.parents[node] && up in reg.nodes
    requires reg.ids[reg.nodes[node]] == node
    requires reg.nodes[node] != reg.nodes[top]
    ensures var r := Append(a, reg.nodes[up], Sub(reg.nodes[node]));
            Closed(r) && Placed(r, reg) && InOrder(r, |reg.arena|) && Unreferenced(r, reg.nodes[top])
  {
    var q := reg.nodes[up];
    var h := reg.nodes[node];
    var r := Append(a, q, Sub(h));
    forall p, i | 0 <= p < |r| && 0 <= i < |r[p].kids| && r[p].kids[i].Sub?
      ensures r[p].kids[i].handle < |r|
      ensures r[p].kids[i].handle < |reg.arena| ==> PlacedUnder(reg, r[p].kids[i].handle, p)
      ensures r[p].kids[i] != Sub(reg.nodes[top])
    {
      if !(p == q && i == |a[q].kids|) {
        assert r[p].kids[i] == a[p].kids[i];
      }
    }
    forall p, i, j | 0 <= p < |r| && 0 <= i < j < |r[p].kids| && r[p].kids[i].Sub? &&
                     r[p].kids[j].Sub? && |reg.arena| <= r[p].kids[i].handle && |reg.arena| <= r[p].kids[j].handle
      ensures r[p].kids[i].handle < r[p].kids[j].handle
    {
      assert r[p].kids[i] == a[p].kids[i];
      assert r[p].kids[j] == a[p].kids[j];
    }
  }

  /** The whole walk keeps the invariant. */
  lemma {:induction false} ClimbKeeps(a: seq<Node>, reg: Reg, top: int, node: int, fuel: nat)
    requires TermInv(a, reg, top) && Climb(a, reg.nodes, reg.parents, top, node, fuel).Next?
    ensures TermInv(Climb(a, reg.nodes, reg.parents, top, node, fuel).value, reg, top)
    decreases fuel
  {
    if node != top {
      var up := reg.parents[node];
      var kid := Sub(reg.nodes[node]);
      if kid !in a[reg.nodes[up]].kids {
        AttachKeeps(a, reg, top, node, up);
      }
      var a' := if kid in a[reg.nodes[up]].kids then a else Append(a, reg.nodes[up], kid);
      ClimbKeeps(a', reg, top, up, fuel - 1);
    }
  }

  /** One terminal row keeps the invariant. */
  lemma TerminalStepKeeps(st: TState, reg: Reg, top: int, lineno: nat, row: Row, mode: LeafMode,
                          secedgeCopy: bool)
    requires TermInv(st.arena, reg, top)
    requires TerminalStep(st, reg, top, lineno, row, mode, secedgeCopy).Next?
    ensures TermInv(TerminalStep(st, reg, top, lineno, row, mode, secedgeCopy).value.arena, reg, top)
  {
    var p := ParentOf(row).value;
    var parent := if p == 0 then top else p;
    var a1 := st.arena;
    if st.last.Some? && parent != st.last.value {
      ClimbKeeps(st.arena, reg, top, st.last.value, |reg.parents|);
      a1 := Climb(st.arena, reg.nodes, reg.parents, top, st.last.value, |reg.parents|).value;
    }
    PlaceKeeps(a1, reg, top, parent, lineno, row, mode, secedgeCopy);
  }

  lemma PlaceKeeps(a: seq<Node>, reg: Reg, top: int, parent: int, lineno: nat, row: Row, mode: LeafMode,
                   secedgeCopy: bool)
    requires TermInv(a, reg, top)
    requires PlaceTerminal(a, reg, top, parent, lineno, row, mode, secedgeCopy).Next?
    ensures TermInv(PlaceTerminal(a, reg, top, parent, lineno, row, mode, secedgeCopy).value, reg, top)
  {
    var n := UnaryNode(mode, RowPayload(row), lineno, |a|, row.edge,
                       if secedgeCopy then None else row.secedge,
                       if secedgeCopy then None else row.comment).value;
    PushUnaryKeeps(a, reg, top, n, reg.nodes[parent]);
    if secedgeCopy && HasSecedge(row) {
      var a2 := Append(a + [n], reg.nodes[parent], Sub(|a|));
      var n2 := UnaryNode(mode, SecedgePayload(row), lineno, |a2|, row.secedge, None, None).value;
      var t := DigitsValue(row.comment.value);
      var target := if t == 0 then top else t;
      PushUnaryKeeps(a2, reg, top, n2, reg.nodes[target]);
    }
  }

  /** The terminal pass keeps the invariant throughout. */
  lemma {:induction false} TerminalsKeep(terms: seq<Row>, n: nat, reg: Reg, top: int, mode: LeafMode,
                                         secedgeCopy: bool)
    requires n <= |terms| && RegValid(reg) && reg.top == Some(top)
    requires Terminals(terms, n, reg, top, mode, secedgeCopy).Next?
    ensures TermInv(Terminals(terms, n, reg, top, mode, secedgeCopy).value.arena, reg, top)
    decreases n
  {
    if n == 0 {
      InitTermInv(reg, top);
    } else {
      TerminalsKeep(terms, n - 1, reg, top, mode, secedgeCopy);
      TerminalStepKeeps(Terminals(terms, n - 1, reg, top, mode, secedgeCopy).value, reg, top, n - 1,
                        terms[n - 1], mode, secedgeCopy);
    }
  }

  // ---------------------------------------------------------------------------
  // Where the terminal pass puts each terminal
  // ---------------------------------------------------------------------------

  /** Terminal row `row` at line k sits in arena a: a node made by the pass
      carries the row's tag, line and edge, has the row's word as its first
      child, and is a child of the node of the row's parent (0 meaning the
      root). */
  ghost predicate TerminalAt(a: seq<Node>, reg: Reg, top: int, k: nat, row: Row)
  {
    ParentOf(row).Some? &&
    var parent := if ParentOf(row).value == 0 then top else ParentOf(row).value;
    parent in reg.nodes && reg.nodes[parent] < |a| &&
    exists h :: |reg.arena| <= h < |a| && a[h].tag == row.pos && a[h].lineno == k && a[h].edge == row.edge &&
                |a[h].kids| > 0 && a[h].kids[0].Tip? && LeafText(a[h].kids[0].leaf) == row.words &&
                Sub(h) in a[reg.nodes[parent]].kids
  }

  lemma TerminalAtGrows(a: seq<Node>, b: seq<Node>, reg: Reg, top: int, k: nat, row: Row)
    requires Grows(a, b) && TerminalAt(a, reg, top, k, row)
    ensures TerminalAt(b, reg, top, k, row)
  {
    var parent := if ParentOf(row).value == 0 then top else ParentOf(row).value;
    var h :| |reg.arena| <= h < |a| && a[h].tag == row.pos && a[h].lineno == k && a[h].edge == row.edge &&
             |a[h].kids| > 0 && a[h].kids[0].Tip? && LeafText(a[h].kids[0].leaf) == row.words &&
             Sub(h) in a[reg.nodes[parent]].kids;
    assert a[h].kids <= b[h].kids;
    assert a[reg.nodes[parent]].kids <= b[reg.nodes[parent]].kids;
    assert b[h].kids[0] == a[h].kids[0];
  }

  /** Placing a terminal only adds nodes and children. */
  lemma PlaceGrows(a: seq<Node>, reg: Reg, top: int, parent: int, lineno: nat, row: Row, mode: LeafMode,
                   secedgeCopy: bool)
    requires Handles(reg.nodes, |a|)
    requires PlaceTerminal(a, reg, top, parent, lineno, row, mode, secedgeCopy).Next?
    ensures Grows(a, PlaceTerminal(a, reg, top, parent, lineno, row, mode, secedgeCopy).value)
  {
    var n := UnaryNode(mode, RowPayload(row), lineno, |a|, row.edge,
                       if secedgeCopy then None else row.secedge,
                       if secedgeCopy then None else row.comment).value;
    var a2 := Append(a + [n], reg.nodes[parent], Sub(|a|));
    AppendGrows(a + [n], reg.nodes[parent], Sub(|a|));
    assert Grows(a, a + [n]);
    GrowsTrans(a, a + [n], a2);
    if secedgeCopy && HasSecedge(row) {
      var n2 := UnaryNode(mode, SecedgePayload(row), lineno, |a2|, row.secedge, None, None).value;
      var t := DigitsValue(row.comment.value);
      var target := if t == 0 then top else t;
      AppendGrows(a2 + [n2], reg.nodes[target], Sub(|a2|));
      assert Grows(a2, a2 + [n2]);
      GrowsTrans(a2, a2 + [n2], Append(a2 + [n2], reg.nodes[target], Sub(|a2|)));
      GrowsTrans(a, a2, Append(a2 + [n2], reg.nodes[target], Sub(|a2|)));
    }
  }

  /** The first n terminal rows are placed in arena a. */
  ghost predicate AllPlaced(a: seq<Node>, reg: Reg, top: int, terms: seq<Row>, n: nat)
    requires n <= |terms|
  {
    forall k {:trigger TerminalAt(a, reg, top, k, terms[k])} :: 0 <= k < n ==> TerminalAt(a, reg, top, k, terms[k])
  }

  /** Rows placed in an arena stay placed when the arena grows. */
  lemma AllPlacedGrows(a: seq<Node>, b: seq<Node>, reg: Reg, top: int, terms: seq<Row>, n: nat)
    requires n <= |terms| && Grows(a, b) && AllPlaced(a, reg, top, terms, n)
    ensures AllPlaced(b, reg, top, terms, n)
  {
    forall k | 0 <= k < n
      ensures TerminalAt(b, reg, top, k, terms[k])
    {
      TerminalAtGrows(a, b, reg, top, k, terms[k]);
    }
  }

  lemma AllPlacedSnoc(a: seq<Node>, reg: Reg, top: int, terms: seq<Row>, n: nat)
    requires n < |terms| && AllPlaced(a, reg, top, terms, n) && TerminalAt(a, reg, top, n, terms[n])
    ensures AllPlaced(a, reg, top, terms, n + 1)
  {
  }

  /** Placing row `row` under the node of its parent places it. */
  lemma RowPlaced(a: seq<Node>, reg: Reg, top: int, parent: int, lineno: nat, row: Row, mode: LeafMode,
                  secedgeCopy: bool)
    requires Handles(reg.nodes, |a|) && |reg.arena| <= |a| && ParentOf(row).Some?
    requires parent == if ParentOf(row).value == 0 then top else ParentOf(row).value
    requires PlaceTerminal(a, reg, top, parent, lineno, row, mode, secedgeCopy).Next?
    ensures TerminalAt(PlaceTerminal(a, reg, top, parent, lineno, row, mode, secedgeCopy).value, reg, top, lineno, row)
  {
    PlaceTerminalShape(a, reg, top, parent, lineno, row, mode, secedgeCopy);
    var b := PlaceTerminal(a, reg, top, parent, lineno, row, mode, secedgeCopy).value;
    assert b[|a|].kids[0].Tip?;
  }

  /** One terminal row: the rows placed before stay placed, and the row itself
      is placed under its parent's node. */
  lemma TerminalStepPlaces(st: TState, reg: Reg, top: int, terms: seq<Row>, lineno: nat, mode: LeafMode,
                           secedgeCopy: bool)
    requires |reg.arena| <= |st.arena| && Handles(reg.nodes, |reg.arena|) && lineno < |terms|
    requires AllPlaced(st.arena, reg, top, terms, lineno)
    requires TerminalStep(st, reg, top, lineno, terms[lineno], mode, secedgeCopy).Next?
    ensures AllPlaced(TerminalStep(st, reg, top, lineno, terms[lineno], mode, secedgeCopy).value.arena,
                      reg, top, terms, lineno + 1)
  {
    var row := terms[lineno];
    var p := ParentOf(row).value;
    var parent := if p == 0 then top else p;
    var a1 := st.arena;
    if st.last.Some? && parent != st.last.value {
      ClimbGrows(st.arena, reg.nodes, reg.parents, top, st.last.value, |reg.parents|);
      a1 := Climb(st.arena, reg.nodes, reg.parents, top, st.last.value, |reg.parents|).value;
    }
    PlaceGrows(a1, reg, top, parent, lineno, row, mode, secedgeCopy);
    RowPlaced(a1, reg, top, parent, lineno, row, mode, secedgeCopy);
    var b := PlaceTerminal(a1, reg, top, parent, lineno, row, mode, secedgeCopy).value;
    GrowsTrans(st.arena, a1, b);
    AllPlacedGrows(st.arena, b, reg, top, terms, lineno);
    AllPlacedSnoc(b, reg, top, terms, lineno);
  }

  /** After the whole terminal pass, every terminal row's unary node is a
      child of the node of that row's parent. */
  lemma {:induction false} TerminalsPlaced(terms: seq<Row>, n: nat, reg: Reg, top: int, mode: LeafMode,
                                           secedgeCopy: bool)
    requires n <= |terms| && Handles(reg.nodes, |reg.arena|)
    requires Terminals(terms, n, reg, top, mode, secedgeCopy).Next?
    ensures AllPlaced(Terminals(terms, n, reg, top, mode, secedgeCopy).value.arena, reg, top, terms, n)
    decreases n
  {
    if n > 0 {
      TerminalsPlaced(terms, n - 1, reg, top, mode, secedgeCopy);
      TerminalsPlacedStep(terms, n, reg, top, mode, secedgeCopy);
    }
  }

  /** The step of TerminalsPlaced: row n - 1 of the pass keeps the rows before
      it placed and places itself. */
  lemma TerminalsPlacedStep(terms: seq<Row>, n: nat, reg: Reg, top: int, mode: LeafMode, secedgeCopy: bool)
    requires 0 < n <= |terms| && Handles(reg.nodes, |reg.arena|)
    requires Terminals(terms, n, reg, top, mode, secedgeCopy).Next?
    requires Terminals(terms, n - 1, reg, top, mode, secedgeCopy).Next?
    requires AllPlaced(Terminals(terms, n - 1, reg, top, mode, secedgeCopy).value.arena, reg, top, terms, n - 1)
    ensures AllPlaced(Terminals(terms, n, reg, top, mode, secedgeCopy).value.arena, reg, top, terms, n)
  {
    var st := Terminals(terms, n - 1, reg, top, mode, secedgeCopy).value;
    TerminalsUnfold(terms, n, reg, top, mode, secedgeCopy);
    TerminalStepPlaces(st, reg, top, terms, n - 1, mode, secedgeCopy);
  }

  lemma TerminalsUnfold(terms: seq<Row>, n: nat, reg: Reg, top: int, mode: LeafMode, secedgeCopy: bool)
    requires 0 < n <= |terms| && Handles(reg.nodes, |reg.arena|)
    requires Terminals(terms, n - 1, reg, top, mode, secedgeCopy).Next?
    ensures Handles(reg.nodes, |Terminals(terms, n - 1, reg, top, mode, secedgeCopy).value.arena|)
    ensures Terminals(terms, n, reg, top, mode, secedgeCopy) ==
            TerminalStep(Terminals(terms, n - 1, reg, top, mode, secedgeCopy).value, reg, top, n - 1, terms[n - 1],
                         mode, secedgeCopy)
  {
  }
}
