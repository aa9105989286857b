/** The TIGER-XML tree builder, second half of the graph pass: the <edge>
    records attach every node to its parent.  An edge of a kept non-terminal
    attaches its target under that non-terminal, and no target may be attached
    that way twice; an edge of a skipped VROOT re-hangs its target under the
    real root. */
module TigerAttach {
  import opened Arena
  import opened TigerGraph

  /** What the pass reads besides the arena: the tokens dict, the graph's root
      id, whether the VROOT is skipped, and root_id. */
  datatype Ctx = Ctx(ids: map<string, nat>, root: string, skip: bool, rootId: Option<string>)

  /** One <edge> record, with the id of the non-terminal it belongs to. */
  datatype Link = Link(owner: string, edge: Edge)

  /** The state of the pass: the arena and attached_ids. */
  datatype AState = AState(arena: seq<Node>, attached: set<string>)

  /** The edge records of one non-terminal, in document order. */
  function Links(nt: NonTerminal): (r: seq<Link>)
    ensures |r| == |nt.edges| && forall i :: 0 <= i < |r| ==> r[i] == Link(nt.id, nt.edges[i])
  {
    seq(|nt.edges|, i requires 0 <= i < |nt.edges| => Link(nt.id, nt.edges[i]))
  }

  /** The edge records of the first k non-terminals, in document order. */
  function AllLinks(nts: seq<NonTerminal>, k: nat): seq<Link>
    requires k <= |nts|
  {
    if k == 0 then [] else AllLinks(nts, k - 1) + Links(nts[k - 1])
  }

  /** The record belongs to a non-terminal the builder keeps. */
  predicate FromKept(cx: Ctx, l: Link)
  {
    !(l.owner == cx.root && cx.skip)
  }

  /** The record attaches something: every record of a kept non-terminal, and
      a record of the skipped VROOT unless it points at root_id itself. */
  predicate Attaches(cx: Ctx, l: Link)
  {
    FromKept(cx, l) || Some(l.edge.idref) != cx.rootId
  }

  /** The id of the node the record's target goes under: its non-terminal, or
      root_id for the skipped VROOT. */
  function OwnerId(cx: Ctx, l: Link): Option<string>
  {
    if FromKept(cx, l) then Some(l.owner) else cx.rootId
  }

  /** The arena after giving node c the edge label, and the Atom of a unary
      node holding one Atom the same label. */
  function Relabel(a: seq<Node>, c: nat, text: string): (r: seq<Node>)
    requires c < |a|
    ensures |r| == |a| && forall k :: 0 <= k < |a| && k != c ==> r[k] == a[k]
  {
    var n := a[c];
    var kids := if |n.kids| == 1 && n.kids[0].Tip? && n.kids[0].leaf.AtomLeaf? then
                  [Tip(AtomLeaf(n.kids[0].leaf.atom.(edge := Some(text))))]
                else n.kids;
    a[c := n.(edge := Some(text), kids := kids)]
  }

  /** One edge record: a target already attached by a kept non-terminal makes
      the sentence None; an unknown target or owner raises KeyError; otherwise
      the target takes the label and becomes the owner's last child. */
  function AttachLink(st: AState, l: Link, cx: Ctx): (r: Pass<AState>)
    requires Names(cx.ids, |st.arena|)
  {
    var id := l.edge.idref;
    if FromKept(cx, l) && id in st.attached then Stop(NoTree)
    else if !Attaches(cx, l) then Next(st)
    else
      var attached := if FromKept(cx, l) then st.attached + {id} else st.attached;
      var owner := OwnerId(cx, l);
      if id !in cx.ids || owner.None? || owner.value !in cx.ids then Stop(Crash(KeyError))
      else
        var a := Relabel(st.arena, cx.ids[id], Text(l.edge.edgeLabel));
        Next(AState(Append(a, cx.ids[owner.value], Sub(cx.ids[id])), attached))
  }

  /** The pass over the records xs, from state st. */
  function Attached(st: AState, xs: seq<Link>, cx: Ctx): (r: Pass<AState>)
    requires Names(cx.ids, |st.arena|)
    ensures r.Next? ==> |r.value.arena| == |st.arena|
    ensures r.Stop? ==> r.outcome == NoTree || r.outcome == Crash(KeyError)
  {
    if xs == [] then Next(st)
    else
      match Attached(st, xs[..|xs| - 1], cx)
      case Stop(o) => Stop(o)
      case Next(s) => AttachLink(s, xs[|xs| - 1], cx)
  }

  lemma AttachedSnoc(st: AState, xs: seq<Link>, x: Link, cx: Ctx)
    requires Names(cx.ids, |st.arena|)
    ensures Attached(st, xs, cx).Stop? ==> Attached(st, xs + [x], cx) == Attached(st, xs, cx)
    ensures Attached(st, xs, cx).Next? ==> Attached(st, xs + [x], cx) == AttachLink(Attached(st, xs, cx).value, x, cx)
  {
    assert (xs + [x])[..|xs|] == xs;
  }

  /** Once the pass has stopped, later records change nothing. */
  lemma {:induction false} AttachedStops(st: AState, xs: seq<Link>, ys: seq<Link>, cx: Ctx)
    requires Names(cx.ids, |st.arena|) && Attached(st, xs, cx).Stop?
    ensures Attached(st, xs + ys, cx) == Attached(st, xs, cx)
    decreases |ys|
  {
    if ys == [] {
      assert xs + ys == xs;
    } else {
      var init, y := ys[..|ys| - 1], ys[|ys| - 1];
      AttachedStops(st, xs, init, cx);
      assert xs + ys == (xs + init) + [y];
      AttachedSnoc(st, xs + init, y, cx);
    }
  }

  /** A pass stopped at a prefix of a non-terminal's records stays stopped. */
  lemma StopsWithin(st: AState, done: seq<Link>, links: seq<Link>, k: nat, cx: Ctx)
    requires k <= |links| && Names(cx.ids, |st.arena|) && Attached(st, done + links[..k], cx).Stop?
    ensures Attached(st, done + links, cx) == Attached(st, done + links[..k], cx)
  {
    assert links == links[..k] + links[k..];
    assert done + links == (done + links[..k]) + links[k..];
    AttachedStops(st, done + links[..k], links[k..], cx);
  }

  /** One more record of a non-terminal, after the pass has reached cur. */
  lemma StepWithin(st: AState, done: seq<Link>, links: seq<Link>, k: nat, cx: Ctx, cur: AState)
    requires k < |links| && Names(cx.ids, |st.arena|) && Attached(st, done + links[..k], cx) == Next(cur)
    ensures Attached(st, done + links[..k + 1], cx) == AttachLink(cur, links[k], cx)
  {
    assert done + links[..k + 1] == (done + links[..k]) + [links[k]];
    AttachedSnoc(st, done + links[..k], links[k], cx);
  }

  /** The step of a kept non-terminal's edge whose target is known and new. */
  lemma AttachKeptStep(st: AState, l: Link, cx: Ctx)
    requires Names(cx.ids, |st.arena|) && FromKept(cx, l) && l.owner in cx.ids
    requires l.edge.idref !in st.attached && l.edge.idref in cx.ids
    ensures AttachLink(st, l, cx) ==
              Next(AState(Append(Relabel(st.arena, cx.ids[l.edge.idref], Text(l.edge.edgeLabel)), cx.ids[l.owner],
                                 Sub(cx.ids[l.edge.idref])), st.attached + {l.edge.idref}))
  {
  }

  lemma AllLinksPrefix(nts: seq<NonTerminal>, i: nat, n: nat)
    requires i <= n <= |nts|
    ensures |AllLinks(nts, i)| <= |AllLinks(nts, n)|
    ensures AllLinks(nts, n) == AllLinks(nts, i) + AllLinks(nts, n)[|AllLinks(nts, i)|..]
    decreases n - i
  {
    if i < n {
      AllLinksPrefix(nts, i, n - 1);
    }
  }

  /** The edges of a kept non-terminal, whose node is tok: each target is
      attached under tok unless an earlier kept non-terminal attached it. */
  method AttachUnder(st: AState, nt: NonTerminal, tok: nat, cx: Ctx, ghost init: AState, ghost done: seq<Link>)
    returns (r: Pass<AState>)
    requires Names(cx.ids, |init.arena|) && Attached(init, done, cx) == Next(st)
    requires !(nt.id == cx.root && cx.skip) && nt.id in cx.ids && tok == cx.ids[nt.id]
    ensures r == Attached(init, done + Links(nt), cx)
  {
    var links := Links(nt);
    assert done + links[..0] == done;
    var cur := st;
    for k := 0 to |nt.edges|
      invariant |cur.arena| == |init.arena|
      invariant Attached(init, done + links[..k], cx) == Next(cur)
    {
      var e := nt.edges[k];
      StepWithin(init, done, links, k, cx, cur);
      assert links[k] == Link(nt.id, e) && FromKept(cx, links[k]) && OwnerId(cx, links[k]) == Some(nt.id);
      if e.idref in cur.attached {
        StopsWithin(init, done, links, k + 1, cx);
        return Stop(NoTree);
      }
      var attached := cur.attached + {e.idref};
      if e.idref !in cx.ids {
        StopsWithin(init, done, links, k + 1, cx);
        return Stop(Crash(KeyError));
      }
      var child := cx.ids[e.idref];
      var arena := Relabel(cur.arena, child, Text(e.edgeLabel));
      AttachKeptStep(cur, links[k], cx);
      cur := AState(Append(arena, tok, Sub(child)), attached);
    }
    assert links[..|nt.edges|] == links;
    return Next(cur);
  }

  /** The edges of the skipped VROOT: each target other than root_id is
      re-hung under root_id's node, without being recorded as attached. */
  method Rehang(st: AState, nt: NonTerminal, cx: Ctx, ghost init: AState, ghost done: seq<Link>)
    returns (r: Pass<AState>)
    requires Names(cx.ids, |init.arena|) && Attached(init, done, cx) == Next(st)
    requires nt.id == cx.root && cx.skip
    ensures r == Attached(init, done + Links(nt), cx)
  {
    var links := Links(nt);
    assert done + links[..0] == done;
    var cur := st;
    for k := 0 to |nt.edges|
      invariant |cur.arena| == |init.arena|
      invariant Attached(init, done + links[..k], cx) == Next(cur)
    {
      var e := nt.edges[k];
      StepWithin(init, done, links, k, cx, cur);
      assert links[k] == Link(nt.id, e) && !FromKept(cx, links[k]) && OwnerId(cx, links[k]) == cx.rootId;
      if Some(e.idref) != cx.rootId {
        if e.idref !in cx.ids {
          StopsWithin(init, done, links, k + 1, cx);
          return Stop(Crash(KeyError));
        }
        var child := cx.ids[e.idref];
        var arena := Relabel(cur.arena, child, Text(e.edgeLabel));
        if cx.rootId.None? || cx.rootId.value !in cx.ids {
          StopsWithin(init, done, links, k + 1, cx);
          return Stop(Crash(KeyError));
        }
        cur := AState(Append(arena, cx.ids[cx.rootId.value], Sub(child)), cur.attached);
      }
    }
    assert links[..|nt.edges|] == links;
    return Next(cur);
  }

  lemma AllLinksStep(nts: seq<NonTerminal>, j: nat)
    requires j < |nts|
    ensures AllLinks(nts, j + 1) == AllLinks(nts, j) + Links(nts[j])
  {
  }

  /** A pass stopped within the first j non-terminals stays stopped. */
  lemma StopsAfter(st: AState, nts: seq<NonTerminal>, j: nat, cx: Ctx)
    requires j <= |nts| && Names(cx.ids, |st.arena|) && Attached(st, AllLinks(nts, j), cx).Stop?
    ensures Attached(st, AllLinks(nts, |nts|), cx) == Attached(st, AllLinks(nts, j), cx)
  {
    AllLinksPrefix(nts, j, |nts|);
    AttachedStops(st, AllLinks(nts, j), AllLinks(nts, |nts|)[|AllLinks(nts, j)|..], cx);
  }

  /** The edges of non-terminal j: attached under it when it is kept, re-hung
      under the root when it is the skipped VROOT. */
  method AttachNonterminal(g: Graph, j: nat, st: AState, cx: Ctx, ghost init: AState) returns (r: Pass<AState>)
    requires j < |g.nonterminals| && Names(cx.ids, |init.arena|) && cx.root == g.root
    requires Attached(init, AllLinks(g.nonterminals, j), cx) == Next(st)
    requires !(g.nonterminals[j].id == g.root && cx.skip) ==> g.nonterminals[j].id in cx.ids
    ensures r == Attached(init, AllLinks(g.nonterminals, j + 1), cx)
  {
    var nt := g.nonterminals[j];
    AllLinksStep(g.nonterminals, j);
    if !(nt.id == g.root && cx.skip) {
      var tok := cx.ids[nt.id];
      r := AttachUnder(st, nt, tok, cx, init, AllLinks(g.nonterminals, j));
    } else {
      r := Rehang(st, nt, cx, init, AllLinks(g.nonterminals, j));
    }
  }

  /** The attachment pass of the builder: through the non-terminals in
      document order and through each one's edges in document order. */
  method AttachEdges(g: Graph, a: seq<Node>, cx: Ctx) returns (r: Pass<AState>)
    requires Names(cx.ids, |a|) && cx.root == g.root
    requires forall j :: 0 <= j < |g.nonterminals| && !(g.nonterminals[j].id == g.root && cx.skip) ==>
                           g.nonterminals[j].id in cx.ids
    ensures r == Attached(AState(a, {}), AllLinks(g.nonterminals, |g.nonterminals|), cx)
  {
    ghost var init := AState(a, {});
    var st := AState(a, {});
    for j := 0 to |g.nonterminals|
      invariant Attached(init, AllLinks(g.nonterminals, j), cx) == Next(st)
    {
      r := AttachNonterminal(g, j, st, cx, init);
      if r.Stop? {
        StopsAfter(init, g.nonterminals, j + 1, cx);
        return r;
      }
      st := r.value;
    }
    return Next(st);
  }

  // ---------------------------------------------------------------------------
  // What the pass does
  // ---------------------------------------------------------------------------

  /** The targets of the records of kept non-terminals, in order: the ids the
      pass records in attached_ids. */
  function KeptTargets(cx: Ctx, xs: seq<Link>): seq<string>
  {
    if xs == [] then []
    else
      var l := xs[|xs| - 1];
      KeptTargets(cx, xs[..|xs| - 1]) + (if FromKept(cx, l) then [l.edge.idref] else [])
  }

  predicate Distinct(s: seq<string>)
  {
    forall i, j :: 0 <= i < j < |s| ==> s[i] != s[j]
  }

  /** Every record that attaches something names a known target and a known owner. */
  ghost predicate Known(cx: Ctx, xs: seq<Link>)
  {
    forall i :: 0 <= i < |xs| && Attaches(cx, xs[i]) ==>
      xs[i].edge.idref in cx.ids && OwnerId(cx, xs[i]).Some? && OwnerId(cx, xs[i]).value in cx.ids
  }

  /** Known records stay known in a prefix, and the last one is known. */
  lemma KnownSnoc(cx: Ctx, p: seq<Link>, l: Link)
    requires Known(cx, p + [l])
    ensures Known(cx, p)
    ensures Attaches(cx, l) ==> l.edge.idref in cx.ids && OwnerId(cx, l).Some? && OwnerId(cx, l).value in cx.ids
  {
    forall i | 0 <= i < |p| && Attaches(cx, p[i])
      ensures p[i].edge.idref in cx.ids && OwnerId(cx, p[i]).Some? && OwnerId(cx, p[i]).value in cx.ids
    {
      assert p[i] == (p + [l])[i];
    }
    assert l == (p + [l])[|p|];
  }

  /** When every target and owner the pass looks up exists, no lookup raises
      KeyError: the pass either gets through or returns None. */
  lemma {:induction false} KnownNoKeyError(st: AState, xs: seq<Link>, cx: Ctx)
    requires Names(cx.ids, |st.arena|) && Known(cx, xs)
    ensures Attached(st, xs, cx) != Stop(Crash(KeyError))
    decreases |xs|
  {
    if xs != [] {
      var p, l := xs[..|xs| - 1], xs[|xs| - 1];
      assert xs == p + [l];
      KnownSnoc(cx, p, l);
      KnownNoKeyError(st, p, cx);
      AttachedSnoc(st, p, l, cx);
    }
  }

  /** The induction behind AttachedOnce: success means distinct kept targets
      recorded as attached_ids, None means a repeated kept target, and with
      every id known distinct targets get through. */
  lemma {:induction false} KeptTargetsOnce(a: seq<Node>, xs: seq<Link>, cx: Ctx)
    requires Names(cx.ids, |a|)
    ensures var r := Attached(AState(a, {}), xs, cx);
            var kt := KeptTargets(cx, xs);
            (r.Next? ==> Distinct(kt) && r.value.attached == set i | 0 <= i < |kt| :: kt[i]) &&
            (r == Stop(NoTree) ==> !Distinct(kt)) &&
            (Known(cx, xs) && Distinct(kt) ==> r.Next?)
    decreases |xs|
  {
    if xs != [] {
      var p, l := xs[..|xs| - 1], xs[|xs| - 1];
      KeptTargetsOnce(a, p, cx);
      assert xs == p + [l];
      AttachedSnoc(AState(a, {}), p, l, cx);
      var kp := KeptTargets(cx, p);
      var kt := KeptTargets(cx, xs);
      assert kp == kt[..|kp|];
      if Known(cx, xs) {
        KnownSnoc(cx, p, l);
      }
      match Attached(AState(a, {}), p, cx)
      case Stop(o) =>
      case Next(st) =>
        if FromKept(cx, l) && l.edge.idref in st.attached {
          var i :| 0 <= i < |kp| && kp[i] == l.edge.idref;
          assert kt[i] == kt[|kp|];
        } else if FromKept(cx, l) {
          assert kt == kp + [l.edge.idref];
          var r := Attached(AState(a, {}), xs, cx);
          if r.Next? {
            assert r.value.attached == st.attached + {l.edge.idref};
            assert r.value.attached == set i | 0 <= i < |kt| :: kt[i] by {
              forall x | x in r.value.attached ensures x in set i | 0 <= i < |kt| :: kt[i] {
                if x != l.edge.idref {
                  var i :| 0 <= i < |kp| && kp[i] == x;
                  assert kt[i] == x;
                } else {
                  assert kt[|kp|] == x;
                }
              }
              forall i | 0 <= i < |kt| ensures kt[i] in r.value.attached {
                if i < |kp| {
                  assert kt[i] == kp[i];
                }
              }
            }
          }
        } else {
          assert kt == kp;
        }
    }
  }

  /** No target is attached twice by kept non-terminals: provided every
      target and owner it looks up exists, the pass gets through when the kept
      targets are distinct and returns None when one repeats; a pass that
      returns None has met a repeated kept target; and attached_ids ends as the
      set of kept targets. */
  lemma AttachedOnce(a: seq<Node>, xs: seq<Link>, cx: Ctx)
    requires Names(cx.ids, |a|)
    ensures var r := Attached(AState(a, {}), xs, cx);
            var kt := KeptTargets(cx, xs);
            (r.Next? ==> Distinct(kt) && r.value.attached == set i | 0 <= i < |kt| :: kt[i]) &&
            (r == Stop(NoTree) ==> !Distinct(kt)) &&
            (Known(cx, xs) && Distinct(kt) ==> r.Next?) &&
            (Known(cx, xs) && !Distinct(kt) ==> r == Stop(NoTree))
  {
    KeptTargetsOnce(a, xs, cx);
    if Known(cx, xs) {
      KnownNoKeyError(AState(a, {}), xs, cx);
    }
  }

  /** The child one record gives node h: the target, when the record attaches
      it under h. */
  function Adopts(cx: Ctx, l: Link, h: nat): seq<Item>
  {
    var o := OwnerId(cx, l);
    if Attaches(cx, l) && l.edge.idref in cx.ids && o.Some? && o.value in cx.ids && cx.ids[o.value] == h then
      [Sub(cx.ids[l.edge.idref])]
    else []
  }

  /** The children the records xs give node h, in document order. */
  function Adopted(cx: Ctx, xs: seq<Link>, h: nat): seq<Item>
  {
    if xs == [] then [] else Adopted(cx, xs[..|xs| - 1], h) + Adopts(cx, xs[|xs| - 1], h)
  }

  /** The edge label node h ends with: that of the last record attaching it,
      or d when none does. */
  function LastLabel(cx: Ctx, xs: seq<Link>, h: nat, d: Option<string>): Option<string>
  {
    if xs == [] then d
    else
      var l := xs[|xs| - 1];
      if Attaches(cx, l) && l.edge.idref in cx.ids && cx.ids[l.edge.idref] == h then Some(Text(l.edge.edgeLabel))
      else LastLabel(cx, xs[..|xs| - 1], h, d)
  }

  /** Item y is item x as it may have become: the same child node, or a leaf
      equal to it in Python's sense (an Atom whose annotation changed). */
  predicate SameItem(x: Item, y: Item)
  {
    if x.Sub? then y == x else y.Tip? && LeafEq(x.leaf, y.leaf)
  }

  /** Node h's children m extend its children n by ad, leaves possibly re-labelled. */
  predicate Extends(n: seq<Item>, m: seq<Item>, ad: seq<Item>)
  {
    |m| == |n| + |ad| && m[|n|..] == ad && forall i :: 0 <= i < |n| ==> SameItem(n[i], m[i])
  }

  /** One record leaves node h's label, line number and annotations as they
      were, sets its edge when h is the target, and appends to its children
      what the record adopts under h, the one Atom of a unary target taking
      the label too. */
  lemma AttachLinkNode(st: AState, l: Link, cx: Ctx, h: nat)
    requires Names(cx.ids, |st.arena|) && h < |st.arena| && AttachLink(st, l, cx).Next?
    ensures var n := st.arena[h];
            var m := AttachLink(st, l, cx).value.arena[h];
            m.tag == n.tag && m.lineno == n.lineno && m.secedge == n.secedge && m.comment == n.comment &&
            m.edge == (if Attaches(cx, l) && l.edge.idref in cx.ids && cx.ids[l.edge.idref] == h
                       then Some(Text(l.edge.edgeLabel)) else n.edge) &&
            Extends(n.kids, m.kids, Adopts(cx, l, h))
  {
    var n := st.arena[h];
    if Attaches(cx, l) {
      var c := cx.ids[l.edge.idref];
      var ow := cx.ids[OwnerId(cx, l).value];
      var a1 := Relabel(st.arena, c, Text(l.edge.edgeLabel));
      var m := AttachLink(st, l, cx).value.arena[h];
      assert m == if h == ow then a1[h].(kids := a1[h].kids + [Sub(c)]) else a1[h];
      assert |a1[h].kids| == |n.kids| && forall i :: 0 <= i < |n.kids| ==> SameItem(n.kids[i], a1[h].kids[i]);
    }
  }

  lemma {:induction false} AdoptedSubs(cx: Ctx, xs: seq<Link>, h: nat, i: nat)
    requires i < |Adopted(cx, xs, h)|
    ensures Adopted(cx, xs, h)[i].Sub?
    decreases |xs|
  {
    var p := xs[..|xs| - 1];
    if i < |Adopted(cx, p, h)| {
      AdoptedSubs(cx, p, h, i);
    }
  }

  /** After the pass, node h has its label, line number and annotations, the
      edge label of the last record attaching it, its former children (leaves
      possibly re-labelled) and then the children the records adopt under it,
      in document order. */
  lemma {:induction false} AttachedNode(a: seq<Node>, xs: seq<Link>, cx: Ctx, h: nat)
    requires Names(cx.ids, |a|) && h < |a|
    ensures var r := Attached(AState(a, {}), xs, cx);
            r.Next? ==>
              var m := r.value.arena[h];
              m.tag == a[h].tag && m.lineno == a[h].lineno && m.secedge == a[h].secedge &&
              m.comment == a[h].comment && m.edge == LastLabel(cx, xs, h, a[h].edge) &&
              Extends(a[h].kids, m.kids, Adopted(cx, xs, h))
    decreases |xs|
  {
    if xs != [] {
      var p, l := xs[..|xs| - 1], xs[|xs| - 1];
      AttachedNode(a, p, cx, h);
      AttachedSnoc(AState(a, {}), p, l, cx);
      assert xs == p + [l];
      var r := Attached(AState(a, {}), xs, cx);
      if r.Next? {
        var st := Attached(AState(a, {}), p, cx).value;
        AttachLinkNode(st, l, cx, h);
        var ap := Adopted(cx, p, h);
        assert Adopted(cx, xs, h) == ap + Adopts(cx, l, h);
        forall i | 0 <= i < |ap| ensures ap[i].Sub? {
          AdoptedSubs(cx, p, h, i);
        }
        ExtendsTrans(a[h].kids, st.arena[h].kids, r.value.arena[h].kids, ap, Adopts(cx, l, h));
      }
    }
  }

  /** Extending children twice extends them by both parts, when the first part
      holds only child nodes (which no later record re-labels). */
  lemma ExtendsTrans(k0: seq<Item>, n: seq<Item>, m: seq<Item>, ap: seq<Item>, al: seq<Item>)
    requires Extends(k0, n, ap) && Extends(n, m, al) && forall i :: 0 <= i < |ap| ==> ap[i].Sub?
    ensures Extends(k0, m, ap + al)
  {
    forall i | |k0| <= i < |m| ensures m[i] == (ap + al)[i - |k0|] {
      if i < |n| {
        assert n[i] == ap[i - |k0|] && SameItem(n[i], m[i]);
      } else {
        assert m[i] == al[i - |n|];
      }
    }
    forall i | 0 <= i < |k0| ensures SameItem(k0[i], m[i]) {
      assert SameItem(k0[i], n[i]) && SameItem(n[i], m[i]);
      if k0[i].Tip? {
        LeafEqIsEquivalence(k0[i].leaf, n[i].leaf, m[i].leaf);
      }
    }
  }

  /** A node of a unary tree holding one Atom carries the same edge label as
      that Atom. */
  ghost predicate AtomAgrees(a: seq<Node>)
  {
    forall h :: 0 <= h < |a| && |a[h].kids| == 1 && a[h].kids[0].Tip? && a[h].kids[0].leaf.AtomLeaf? ==>
      a[h].kids[0].leaf.atom.edge == a[h].edge
  }

  /** The pass keeps every child handle naming a node, and every unary node's
      Atom agreeing with it on the edge label. */
  lemma {:induction false} AttachedKeeps(a: seq<Node>, xs: seq<Link>, cx: Ctx)
    requires Names(cx.ids, |a|)
    ensures var r := Attached(AState(a, {}), xs, cx);
            r.Next? ==> (Closed(a) ==> Closed(r.value.arena)) && (AtomAgrees(a) ==> AtomAgrees(r.value.arena))
    decreases |xs|
  {
    if xs != [] {
      var p, l := xs[..|xs| - 1], xs[|xs| - 1];
      AttachedKeeps(a, p, cx);
      AttachedSnoc(AState(a, {}), p, l, cx);
      assert xs == p + [l];
      var r := Attached(AState(a, {}), xs, cx);
      if r.Next? {
        var st := Attached(AState(a, {}), p, cx).value;
        var b := r.value.arena;
        forall h | 0 <= h < |b| ensures Extends(st.arena[h].kids, b[h].kids, Adopts(cx, l, h)) {
          AttachLinkNode(st, l, cx, h);
        }
        if Closed(a) {
          assert Closed(st.arena);
          forall q, i | 0 <= q < |b| && 0 <= i < |b[q].kids| && b[q].kids[i].Sub?
            ensures b[q].kids[i].handle < |b|
          {
            if i < |st.arena[q].kids| {
              assert SameItem(st.arena[q].kids[i], b[q].kids[i]);
            } else {
              assert b[q].kids[i] == Adopts(cx, l, q)[i - |st.arena[q].kids|];
            }
          }
        }
        if AtomAgrees(a) {
          assert AtomAgrees(st.arena);
        }
      }
    }
  }
}
