/** The TIGER-XML tree builder, last part: the two reading passes and the
    attachment pass are put together, every recorded secondary edge has its
    subtree copied under its parent, and the tree is the node of root_id. */
module TigerBuild {
  import opened Arena
  import opened TigerGraph
  import opened TigerAttach
  import opened SubtreeCopy

  // ---------------------------------------------------------------------------
  // The reading passes
  // ---------------------------------------------------------------------------

  /** The dicts and root_id after the terminal and the non-terminal pass. */
  function ReadStage(g: Graph, mode: LeafMode, skip: bool): Stage
  {
    NonterminalStage(g, skip, TerminalTokens(g, mode, |g.terminals|), |g.nonterminals|)
  }

  /** What the attachment pass reads besides the arena. */
  function Context(g: Graph, skip: bool, st: Stage): Ctx
  {
    Ctx(st.tokens.ids, g.root, skip, st.rootId)
  }

  /** The non-terminal pass adds only childless nodes without an edge label. */
  lemma {:induction false} NonterminalChildless(g: Graph, skip: bool, t0: Tokens, k: nat, h: nat)
    requires k <= |g.nonterminals|
    requires |t0.arena| <= h < |NonterminalStage(g, skip, t0, k).tokens.arena|
    ensures NonterminalStage(g, skip, t0, k).tokens.arena[h].kids == []
    ensures NonterminalStage(g, skip, t0, k).tokens.arena[h].edge == None
  {
    var pre := NonterminalStage(g, skip, t0, k - 1).tokens.arena;
    if h < |pre| {
      NonterminalChildless(g, skip, t0, k - 1, h);
    }
  }

  /** Node h after both reading passes: the unary node of terminal h, or a
      childless node without an edge label. */
  lemma ReadNode(g: Graph, mode: LeafMode, skip: bool, h: nat)
    requires h < |ReadStage(g, mode, skip).tokens.arena|
    ensures var n := ReadStage(g, mode, skip).tokens.arena[h];
            (h < |g.terminals| && n == TerminalNode(mode, g.terminals[h], h, h)) ||
            (n.kids == [] && n.edge == None)
  {
    var t0 := TerminalTokens(g, mode, |g.terminals|);
    TerminalHandled(g, mode, |g.terminals|);
    NonterminalFrame(g, skip, t0, |g.nonterminals|);
    var a := ReadStage(g, mode, skip).tokens.arena;
    if h < |t0.arena| {
      TerminalCount(g, mode, |g.terminals|);
      TerminalNodeAt(g, mode, |g.terminals|, h);
      assert a[h] == a[..|t0.arena|][h];
    } else {
      NonterminalChildless(g, skip, t0, |g.nonterminals|, h);
    }
  }

  /** After both reading passes the dicts name nodes of the arena, no node has a
      child node yet, every unary node's Atom agrees with it on the edge label,
      and every leaf can be rebuilt from its terminal. */
  lemma ReadShape(g: Graph, mode: LeafMode, skip: bool)
    ensures var st := ReadStage(g, mode, skip).tokens;
            Handled(st) && Closed(st.arena) && AtomAgrees(st.arena) &&
            Rebuildable(st.arena, mode, st.payloads) && |st.payloads| == |g.terminals|
  {
    var t0 := TerminalTokens(g, mode, |g.terminals|);
    TerminalHandled(g, mode, |g.terminals|);
    TerminalCount(g, mode, |g.terminals|);
    NonterminalFrame(g, skip, t0, |g.nonterminals|);
    var st := ReadStage(g, mode, skip).tokens;
    forall h | 0 <= h < |st.arena|
      ensures forall i :: 0 <= i < |st.arena[h].kids| ==> st.arena[h].kids[i].Tip?
      ensures |st.arena[h].kids| == 1 && st.arena[h].kids[0].Tip? && st.arena[h].kids[0].leaf.AtomLeaf? ==>
                st.arena[h].kids[0].leaf.atom.edge == st.arena[h].edge
      ensures forall i :: 0 <= i < |st.arena[h].kids| && st.arena[h].kids[i].Tip? ==>
                0 <= st.arena[h].lineno < |st.payloads| &&
                (mode == BareLeaves || st.payloads[st.arena[h].lineno].morph.Some?)
    {
      ReadNode(g, mode, skip, h);
      if h < |g.terminals| && st.arena[h] == TerminalNode(mode, g.terminals[h], h, h) {
        TerminalNodeAt(g, mode, |g.terminals|, h);
      }
    }
  }

  // ---------------------------------------------------------------------------
  // Up to the secondary edges
  // ---------------------------------------------------------------------------

  /** The state before the secondary edges: the dicts, root_id and the arena
      after the attachment pass. */
  datatype Prep = Prep(tokens: Tokens, rootId: Option<string>, arena: seq<Node>)

  /** Everything the builder does before the secondary edges, or how it stops:
      a root id without an underscore raises IndexError, and the attachment
      pass may return None or raise KeyError. */
  function Prepared(g: Graph, mode: LeafMode): Pass<Prep>
  {
    match SkipVroot(g)
    case Fail(e) => Stop(Crash(e))
    case Ok(skip) =>
      var st := ReadStage(g, mode, skip);
      ReadShape(g, mode, skip);
      match Attached(AState(st.tokens.arena, {}), AllLinks(g.nonterminals, |g.nonterminals|), Context(g, skip, st))
      case Stop(o) => Stop(o)
      case Next(s) => Next(Prep(st.tokens, st.rootId, s.arena))
  }

  /** The arena a copy may start from: the dicts and the recorded secondary
      edges name its nodes, child handles name nodes, and every leaf can be
      rebuilt from its terminal. */
  ghost predicate Ready(p: Prep, mode: LeafMode, a: seq<Node>)
  {
    Names(p.tokens.ids, |a|) &&
    (forall i :: 0 <= i < |p.tokens.secedges| ==> p.tokens.secedges[i].subtree < |a|) &&
    Closed(a) && Rebuildable(a, mode, p.tokens.payloads)
  }

  /** The attachment pass leaves an arena ready for the copies, its unary nodes
      agreeing with their Atoms on the edge label. */
  lemma PreparedReady(g: Graph, mode: LeafMode)
    requires Prepared(g, mode).Next?
    ensures Ready(Prepared(g, mode).value, mode, Prepared(g, mode).value.arena)
    ensures AtomAgrees(Prepared(g, mode).value.arena)
  {
    var skip := SkipVroot(g).value;
    var st := ReadStage(g, mode, skip);
    var a := st.tokens.arena;
    var cx := Context(g, skip, st);
    var xs := AllLinks(g.nonterminals, |g.nonterminals|);
    ReadShape(g, mode, skip);
    AttachedKeeps(a, xs, cx);
    AttachedRebuildable(a, xs, cx, mode, st.tokens.payloads);
  }

  /** The attachment pass adds only child nodes and keeps line numbers, so every
      leaf stays rebuildable. */
  lemma AttachedRebuildable(a: seq<Node>, xs: seq<Link>, cx: Ctx, mode: LeafMode, payloads: seq<Payload>)
    requires Names(cx.ids, |a|) && Rebuildable(a, mode, payloads) && Attached(AState(a, {}), xs, cx).Next?
    ensures Rebuildable(Attached(AState(a, {}), xs, cx).value.arena, mode, payloads)
  {
    var b := Attached(AState(a, {}), xs, cx).value.arena;
    forall h, i | 0 <= h < |b| && 0 <= i < |b[h].kids| && b[h].kids[i].Tip?
      ensures 0 <= b[h].lineno < |payloads| && (mode == BareLeaves || payloads[b[h].lineno].morph.Some?)
    {
      AttachedNode(a, xs, cx, h);
      if i >= |a[h].kids| {
        AdoptedSubs(cx, xs, h, i - |a[h].kids|);
      }
    }
  }

  // ---------------------------------------------------------------------------
  // The secondary edges
  // ---------------------------------------------------------------------------

  /** How the TIGER copy helper copies a subtree for secondary edge s: the new
      root and the Atoms directly under it take s's label, leaves are rebuilt
      from the terminal of their node's line, and a line that is no terminal's
      would raise KeyError. */
  function SpecOf(s: Secedge, mode: LeafMode, payloads: seq<Payload>): CopySpec
  {
    CopySpec(s.edgeLabel, mode, payloads, true, KeyError)
  }

  /** Secondary edge i turned arena a into r: its parent id is in the dict, and
      r is a with a copy of the edge's subtree appended to the parent's node. */
  ghost predicate CopyStep(p: Prep, mode: LeafMode, a: seq<Node>, r: seq<Node>, i: nat)
    requires i < |p.tokens.secedges|
  {
    var s := p.tokens.secedges[i];
    s.parentIdref in p.tokens.ids &&
    CopiedInto(a, r, s.subtree, p.tokens.ids[s.parentIdref], SpecOf(s, mode, p.tokens.payloads))
  }

  /** steps[0], ..., steps[n] are the arenas before and after each of the first
      n secondary edges. */
  ghost predicate Replays(p: Prep, mode: LeafMode, steps: seq<seq<Node>>, n: nat)
  {
    n <= |p.tokens.secedges| && |steps| == n + 1 &&
    forall i :: 0 <= i < n ==> CopyStep(p, mode, steps[i], steps[i + 1], i)
  }

  /** How secondary edge i stops the builder on arena a: a subtree with a cycle
      keeps the copy loop running forever, and otherwise only an unknown parent
      id stops it, with KeyError. */
  ghost predicate CopyStopped(p: Prep, a: seq<Node>, i: nat, o: Outcome)
    requires i < |p.tokens.secedges| && p.tokens.secedges[i].subtree < |a|
  {
    var s := p.tokens.secedges[i];
    if !Finite(a, s.subtree, |a| + 1) then o == Hang
    else o == Crash(KeyError) && s.parentIdref !in p.tokens.ids
  }

  /** The copy loop: every secondary edge, in recording order, has its subtree
      copied under the node of its parent id. */
  method CopySecedges(p: Prep, mode: LeafMode, a: seq<Node>) returns (r: Pass<seq<Node>>)
    requires Ready(p, mode, a)
    ensures r.Next? ==> exists steps :: Replays(p, mode, steps, |p.tokens.secedges|) &&
                                        steps[0] == a && steps[|p.tokens.secedges|] == r.value
    ensures r.Stop? ==> exists steps, i: nat :: Replays(p, mode, steps, i) && i < |p.tokens.secedges| &&
                                           steps[0] == a && Ready(p, mode, steps[i]) &&
                                           CopyStopped(p, steps[i], i, r.outcome)
    ensures p.tokens.secedges == [] ==> r == Next(a)
    ensures r.Next? ==> Ready(p, mode, r.value) && |a| <= |r.value|
  {
    var secs := p.tokens.secedges;
    var ids := p.tokens.ids;
    var arena := a;
    ghost var steps := [a];
    for i := 0 to |secs|
      invariant Replays(p, mode, steps, i) && steps[0] == a && steps[i] == arena
      invariant Ready(p, mode, arena) && |a| <= |arena|
    {
      var s := secs[i];
      if !Finite(arena, s.subtree, |arena| + 1) {
        return Stop(Hang);
      }
      if s.parentIdref !in ids {
        return Stop(Crash(KeyError));
      }
      var spec := SpecOf(s, mode, p.tokens.payloads);
      var copied := CopySubtree(arena, s.subtree, ids[s.parentIdref], spec, |arena| + 1);
      assert copied.Ok?;
      CopyKeepsRebuildable(arena, copied.value, s.subtree, ids[s.parentIdref], spec);
      steps := steps + [copied.value];
      arena := copied.value;
    }
    return Next(arena);
  }

  // ---------------------------------------------------------------------------
  // The whole builder
  // ---------------------------------------------------------------------------

  /** The last line of the builder: the node of root_id, or KeyError when
      root_id is None or no node's id. */
  function Rooted(p: Prep, a: seq<Node>): (o: Outcome)
    ensures o.Built? <==> p.rootId.Some? && p.rootId.value in p.tokens.ids
    ensures o.Built? ==> o.arena == a && o.root == p.tokens.ids[p.rootId.value]
    ensures !o.Built? ==> o == Crash(KeyError)
  {
    if p.rootId.Some? && p.rootId.value in p.tokens.ids then Built(a, p.tokens.ids[p.rootId.value])
    else Crash(KeyError)
  }

  /** _sentence_etree_to_tree: the tree of one TIGER-XML sentence graph, None
      for a graph that attaches a node twice, or the exception or endless loop
      it runs into.  With the copies switched off, or no secondary edges, the
      tree is the root's node after the attachment pass; otherwise it is that
      arena after every secondary edge's copy, or the copy stops it.  The tree
      is rooted at a node of the arena and every child handle names a node. */
  method SentenceTree(g: Graph, mode: LeafMode, secedgeCopy: bool) returns (o: Outcome)
    ensures Prepared(g, mode).Stop? ==> o == Prepared(g, mode).outcome
    ensures Prepared(g, mode).Next? ==>
              var p := Prepared(g, mode).value;
              var n := |p.tokens.secedges|;
              (!secedgeCopy || n == 0 ==> o == Rooted(p, p.arena)) &&
              (secedgeCopy && o != Crash(KeyError) && o != Hang ==>
                 exists steps :: Replays(p, mode, steps, n) && steps[0] == p.arena && o == Rooted(p, steps[n])) &&
              (secedgeCopy && o == Hang ==>
                 exists steps, i: nat :: Replays(p, mode, steps, i) && i < n && steps[0] == p.arena &&
                                         Ready(p, mode, steps[i]) && CopyStopped(p, steps[i], i, o)) &&
              (secedgeCopy && o == Crash(KeyError) ==>
                 (exists steps, i: nat :: Replays(p, mode, steps, i) && i < n && steps[0] == p.arena &&
                                          Ready(p, mode, steps[i]) && CopyStopped(p, steps[i], i, o)) ||
                 (exists steps :: Replays(p, mode, steps, n) && steps[0] == p.arena && o == Rooted(p, steps[n])))
    ensures o.Built? ==> o.root < |o.arena| && Closed(o.arena)
  {
    var skip := SkipVroot(g);
    if skip.Fail? {
      return Crash(skip.err);
    }
    var terminals := ReadTerminals(g, mode);
    var st := ReadNonterminals(g, skip.value, terminals);
    ReadShape(g, mode, skip.value);
    TerminalHandled(g, mode, |g.terminals|);
    NonterminalFrame(g, skip.value, terminals, |g.nonterminals|);
    var cx := Ctx(st.tokens.ids, g.root, skip.value, st.rootId);
    var attached := AttachEdges(g, st.tokens.arena, cx);
    if attached.Stop? {
      return attached.outcome;
    }
    var p := Prep(st.tokens, st.rootId, attached.value.arena);
    PreparedReady(g, mode);
    var arena := p.arena;
    if secedgeCopy {
      var copied := CopySecedges(p, mode, arena);
      if copied.Stop? {
        return copied.outcome;
      }
      arena := copied.value;
    }
    return Rooted(p, arena);
  }

  // ---------------------------------------------------------------------------
  // Properties of the builder
  // ---------------------------------------------------------------------------

  /** The root the builder returns: the graph's root when it is not skipped,
      and otherwise the last target of a VROOT edge that is not a terminal;
      KeyError when there is none. */
  lemma SentenceRoot(g: Graph, mode: LeafMode)
    requires Prepared(g, mode).Next?
    ensures var skip := SkipVroot(g).value;
            var t0 := TerminalTokens(g, mode, |g.terminals|);
            Prepared(g, mode).value.rootId ==
              if skip then Last(RootCandidates(g, skip, TerminalIdSet(g, |g.terminals|), |g.nonterminals|))
              else Some(g.root)
  {
    var skip := SkipVroot(g).value;
    var t0 := TerminalTokens(g, mode, |g.terminals|);
    RootChoice(g, skip, t0, |g.nonterminals|);
    TerminalIdKeys(g, mode, |g.terminals|);
  }

  /** The builder returns None only for a graph whose kept non-terminals
      attach some node twice; when every edge it follows names a node, it gets
      through the attachment pass exactly when no node is attached twice, and
      returns None exactly when one is. */
  lemma SentenceNoTree(g: Graph, mode: LeafMode)
    requires SkipVroot(g).Ok?
    ensures var skip := SkipVroot(g).value;
            var st := ReadStage(g, mode, skip);
            var cx := Context(g, skip, st);
            var xs := AllLinks(g.nonterminals, |g.nonterminals|);
            (Prepared(g, mode) == Stop(NoTree) ==> !Distinct(KeptTargets(cx, xs))) &&
            (Known(cx, xs) ==> (Prepared(g, mode).Next? <==> Distinct(KeptTargets(cx, xs)))) &&
            (Known(cx, xs) ==> (Prepared(g, mode) == Stop(NoTree) <==> !Distinct(KeptTargets(cx, xs))))
  {
    var skip := SkipVroot(g).value;
    var st := ReadStage(g, mode, skip);
    ReadShape(g, mode, skip);
    AttachedOnce(st.tokens.arena, AllLinks(g.nonterminals, |g.nonterminals|), Context(g, skip, st));
  }
}
