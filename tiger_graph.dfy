/** The TIGER-XML tree builder, first half: the sentence graph as the builder
    reads it, the decision whether to skip a technical VROOT node, and the two
    passes that make one tree node per terminal and per non-terminal. */
module TigerGraph {
  import opened Arena

  // ---------------------------------------------------------------------------
  // The sentence graph
  // ---------------------------------------------------------------------------

  /** An <edge> or <secedge> element: its label attribute (possibly absent)
      and the id it points to. */
  datatype Edge = Edge(edgeLabel: Option<string>, idref: string)

  /** A <t> element: its id, its optional attributes and its <secedge> children. */
  datatype Terminal = Terminal(id: string, word: Option<string>, pos: Option<string>, morph: Option<string>,
                               lemmaForm: Option<string>, secedges: seq<Edge>)

  /** An <nt> element: its id, its category and its <edge> and <secedge> children. */
  datatype NonTerminal = NonTerminal(id: string, cat: Option<string>, edges: seq<Edge>, secedges: seq<Edge>)

  /** A <graph> element: its root attribute and its terminals and non-terminals
      in document order. */
  datatype Graph = Graph(root: string, terminals: seq<Terminal>, nonterminals: seq<NonTerminal>)

  /** unicode() of an attribute value: an absent attribute reads as "None". */
  function Text(o: Option<string>): string
  {
    if o.Some? then o.value else "None"
  }

  // ---------------------------------------------------------------------------
  // Whether the graph's root is a technical VROOT
  // ---------------------------------------------------------------------------

  /** The position of the first underscore of s. */
  function FirstUnderscore(s: string): (r: Option<nat>)
    ensures r.Some? ==> r.value < |s| && s[r.value] == '_' && '_' !in s[..r.value]
    ensures r.None? ==> '_' !in s
  {
    if s == [] then None
    else if s[0] == '_' then Some(0)
    else
      match FirstUnderscore(s[1..])
      case None => None
      case Some(i) =>
        assert s[..i + 1] == [s[0]] + s[1..][..i];
        Some(i + 1)
  }

  /** s.split('_')[1]: the text between the first and the second underscore (or
      the end), and no value at all (an IndexError) when s has no underscore. */
  function SecondField(s: string): (r: Option<string>)
  {
    match FirstUnderscore(s)
    case None => None
    case Some(i) =>
      var rest := s[i + 1..];
      match FirstUnderscore(rest)
      case None => Some(rest)
      case Some(j) => Some(rest[..j])
  }

  lemma {:induction false} FirstUnderscoreOf(u: string, rest: string)
    requires '_' !in u
    ensures FirstUnderscore(u + "_" + rest) == Some(|u|)
    decreases |u|
  {
    if u != [] {
      assert (u + "_" + rest)[1..] == u[1..] + "_" + rest;
      FirstUnderscoreOf(u[1..], rest);
    }
  }

  /** The second field is the text between the first two underscores: split
      u_t_w or u_t, with u and t free of underscores, and t comes back; a string
      without an underscore has no second field. */
  lemma SecondFieldOf(u: string, t: string, w: string)
    requires '_' !in u && '_' !in t && (w == [] || w[0] == '_')
    ensures SecondField(u + "_" + t + w) == Some(t)
    ensures SecondField(u).None?
  {
    var s := u + "_" + t + w;
    assert s == u + "_" + (t + w);
    FirstUnderscoreOf(u, t + w);
    assert s[|u| + 1..] == t + w;
    if w == [] {
      assert t + w == t;
    } else {
      assert t + w == t + "_" + w[1..];
      FirstUnderscoreOf(t, w[1..]);
      assert (t + w)[..|t|] == t;
    }
  }

  /** str.lower() on the letters that matter here. */
  function LowerChar(c: char): char
  {
    if 'A' <= c <= 'Z' then (c as int + 32) as char else c
  }

  function Lower(s: string): (r: string)
    ensures |r| == |s| && forall i :: 0 <= i < |s| ==> r[i] == LowerChar(s[i])
  {
    seq(|s|, i requires 0 <= i < |s| => LowerChar(s[i]))
  }

  /** The second field names a VROOT exactly when it spells "vroot" in any mix
      of upper and lower case. */
  lemma LowerIsVroot(t: string)
    ensures Lower(t) == "vroot" <==>
              |t| == 5 && (t[0] == 'v' || t[0] == 'V') && (t[1] == 'r' || t[1] == 'R') &&
              (t[2] == 'o' || t[2] == 'O') && (t[3] == 'o' || t[3] == 'O') && (t[4] == 't' || t[4] == 'T')
  {
    if |t| == 5 {
      var l := Lower(t);
      assert l == [l[0], l[1], l[2], l[3], l[4]];
    }
  }

  /** Whether the builder skips the graph's root: the root id's second field
      reads "vroot" whatever its case and the graph has more than one
      non-terminal.  A root id without an underscore raises IndexError. */
  function SkipVroot(g: Graph): (r: Result<bool>)
    ensures r.Fail? <==> '_' !in g.root
    ensures r.Fail? ==> r.err == IndexError
    ensures r.Ok? && r.value ==> |g.nonterminals| > 1
  {
    match SecondField(g.root)
    case None => Fail(IndexError)
    case Some(t) => Ok(Lower(t) == "vroot" && |g.nonterminals| > 1)
  }

  /** A root id u_t, or u_t_w with more fields after t, such as the corpus
      form s1_VROOT, is skipped exactly when t lowers to vroot and the graph
      has more than one non-terminal. */
  lemma SkipCorpusVroot(g: Graph, u: string, t: string, w: string)
    requires g.root == u + "_" + t + w && '_' !in u && '_' !in t && (w == [] || w[0] == '_')
    ensures SkipVroot(g) == Ok(Lower(t) == "vroot" && |g.nonterminals| > 1)
  {
    SecondFieldOf(u, t, w);
  }

  // ---------------------------------------------------------------------------
  // The terminal pass
  // ---------------------------------------------------------------------------

  /** A recorded secondary edge: the node whose subtree is to be copied, the
      edge label and the id of the node the copy goes under. */
  datatype Secedge = Secedge(subtree: nat, edgeLabel: string, parentIdref: string)

  /** The builder's dicts after a pass: the arena of nodes made so far, the
      tokens dict from XML id to node, the set of terminal ids, the recorded
      secondary edges, and what the leaf builder reads from each terminal
      (terminal_etrees), by terminal position. */
  datatype Tokens = Tokens(arena: seq<Node>, ids: map<string, nat>, terminalIds: set<string>,
                           secedges: seq<Secedge>, payloads: seq<Payload>)

  /** What the leaf builders read from a terminal: word, pos, morph and lemma,
      each as unicode() of the attribute, and no edge, secondary edge or comment. */
  function TerminalPayload(t: Terminal): (p: Payload)
    ensures p.morph.Some? && p.edge.None? && p.secedge.None? && p.comment.None?
  {
    Payload(Text(t.word), Text(t.pos), Some(Text(t.morph)), Some(Text(t.lemmaForm)), None, None, None)
  }

  /** The unary node of terminal t at position idx, its handle being h. */
  function TerminalNode(mode: LeafMode, t: Terminal, idx: nat, h: nat): Node
  {
    Node(Text(t.pos), [Tip(MakeLeaf(mode, TerminalPayload(t), idx, h).value)], idx, None, None, None)
  }

  /** The two leaf builders of the TIGER reader: the bare word, or an Atom with
      the terminal's word, pos, morph and lemma, no edge, secondary edge or
      comment, the terminal's position and the unary node above it. */
  lemma TerminalLeaves(t: Terminal, idx: nat, h: nat)
    ensures TerminalNode(BareLeaves, t, idx, h).kids == [Tip(Word(Text(t.word)))]
    ensures TerminalNode(AtomLeaves, t, idx, h).kids ==
              [Tip(AtomLeaf(Atom(Text(t.word), Text(t.pos), Text(t.morph), Some(Text(t.lemmaForm)),
                                 None, None, None, idx, h)))]
  {
  }

  /** The secondary edges of one element, recorded against node h. */
  function Secedges(h: nat, es: seq<Edge>): (r: seq<Secedge>)
    ensures |r| == |es| && forall i :: 0 <= i < |es| ==> r[i] == Secedge(h, Text(es[i].edgeLabel), es[i].idref)
  {
    seq(|es|, i requires 0 <= i < |es| => Secedge(h, Text(es[i].edgeLabel), es[i].idref))
  }

  /** One step of the terminal pass. */
  function AddTerminal(st: Tokens, idx: nat, t: Terminal, mode: LeafMode): Tokens
  {
    var h := |st.arena|;
    Tokens(st.arena + [TerminalNode(mode, t, idx, h)], st.ids[t.id := h], st.terminalIds + {t.id},
           st.secedges + Secedges(h, t.secedges), st.payloads + [TerminalPayload(t)])
  }

  /** The dicts after the first k terminals. */
  function TerminalTokens(g: Graph, mode: LeafMode, k: nat): Tokens
    requires k <= |g.terminals|
  {
    if k == 0 then Tokens([], map[], {}, [], [])
    else AddTerminal(TerminalTokens(g, mode, k - 1), k - 1, g.terminals[k - 1], mode)
  }

  /** Every handle in the dict names one of n nodes. */
  predicate Names(ids: map<string, nat>, n: nat)
  {
    forall id :: id in ids ==> ids[id] < n
  }

  /** Every handle in the dict and every recorded secondary edge names a node. */
  ghost predicate Handled(st: Tokens)
  {
    Names(st.ids, |st.arena|) &&
    (forall i :: 0 <= i < |st.secedges| ==> st.secedges[i].subtree < |st.arena|)
  }

  /** The ids of the first k terminals. */
  ghost function TerminalIdSet(g: Graph, k: nat): set<string>
    requires k <= |g.terminals|
  {
    set i | 0 <= i < k :: g.terminals[i].id
  }

  /** The terminal pass makes one node and one payload per terminal. */
  lemma {:induction false} TerminalCount(g: Graph, mode: LeafMode, k: nat)
    requires k <= |g.terminals|
    ensures |TerminalTokens(g, mode, k).arena| == k == |TerminalTokens(g, mode, k).payloads|
  {
    if k > 0 {
      TerminalCount(g, mode, k - 1);
    }
  }

  /** Adding a terminal keeps the nodes and payloads made before it and puts
      its own at the end. */
  lemma AddTerminalAt(st: Tokens, idx: nat, t: Terminal, mode: LeafMode, i: nat)
    requires i <= |st.arena| && |st.payloads| == |st.arena|
    ensures var r := AddTerminal(st, idx, t, mode);
            |r.arena| == |r.payloads| == |st.arena| + 1 &&
            r.arena[i] == (if i < |st.arena| then st.arena[i] else TerminalNode(mode, t, idx, i)) &&
            r.payloads[i] == (if i < |st.arena| then st.payloads[i] else TerminalPayload(t))
  {
  }

  /** Terminal i becomes the unary node at handle i with line number i, labelled
      with its pos and holding its leaf, and its payload is read from it. */
  lemma {:induction false} TerminalNodeAt(g: Graph, mode: LeafMode, k: nat, i: nat)
    requires i < k <= |g.terminals|
    ensures |TerminalTokens(g, mode, k).arena| == k == |TerminalTokens(g, mode, k).payloads|
    ensures TerminalTokens(g, mode, k).arena[i] == TerminalNode(mode, g.terminals[i], i, i)
    ensures TerminalTokens(g, mode, k).payloads[i] == TerminalPayload(g.terminals[i])
  {
    TerminalCount(g, mode, k);
    if i < k - 1 {
      TerminalNodeAt(g, mode, k - 1, i);
    }
    TerminalNodeStep(g, mode, k, i);
  }

  /** The step of TerminalNodeAt: terminal k - 1 adds its own node and payload
      and keeps those of the terminals before it. */
  lemma TerminalNodeStep(g: Graph, mode: LeafMode, k: nat, i: nat)
    requires i < k <= |g.terminals|
    requires i < k - 1 ==>
               i < |TerminalTokens(g, mode, k - 1).arena| && i < |TerminalTokens(g, mode, k - 1).payloads| &&
               TerminalTokens(g, mode, k - 1).arena[i] == TerminalNode(mode, g.terminals[i], i, i) &&
               TerminalTokens(g, mode, k - 1).payloads[i] == TerminalPayload(g.terminals[i])
    ensures i < |TerminalTokens(g, mode, k).arena| && i < |TerminalTokens(g, mode, k).payloads|
    ensures TerminalTokens(g, mode, k).arena[i] == TerminalNode(mode, g.terminals[i], i, i)
    ensures TerminalTokens(g, mode, k).payloads[i] == TerminalPayload(g.terminals[i])
  {
    var pre := TerminalTokens(g, mode, k - 1);
    TerminalCount(g, mode, k - 1);
    AddTerminalAt(pre, k - 1, g.terminals[k - 1], mode, i);
  }

  /** The ids of the first k terminals are those of the first k - 1 and the
      id of terminal k - 1. */
  lemma TerminalIdSetStep(g: Graph, k: nat)
    requires 0 < k <= |g.terminals|
    ensures TerminalIdSet(g, k) == TerminalIdSet(g, k - 1) + {g.terminals[k - 1].id}
  {
    forall id | id in TerminalIdSet(g, k) ensures id in TerminalIdSet(g, k - 1) + {g.terminals[k - 1].id} {
      var i :| 0 <= i < k && g.terminals[i].id == id;
      if i < k - 1 {
        assert id in TerminalIdSet(g, k - 1);
      }
    }
  }

  /** The terminal ids are the ids of the terminals and the keys of the dict. */
  lemma {:induction false} TerminalIdKeys(g: Graph, mode: LeafMode, k: nat)
    requires k <= |g.terminals|
    ensures var st := TerminalTokens(g, mode, k);
            st.terminalIds == TerminalIdSet(g, k) && st.ids.Keys == st.terminalIds
  {
    if k > 0 {
      TerminalIdKeys(g, mode, k - 1);
      TerminalIdSetStep(g, k);
      var pre := TerminalTokens(g, mode, k - 1);
      var t := g.terminals[k - 1];
      assert TerminalTokens(g, mode, k).terminalIds == pre.terminalIds + {t.id};
      assert TerminalTokens(g, mode, k).ids.Keys == pre.ids.Keys + {t.id};
    }
  }

  /** Each id of ids names the last of the first k terminals with that id. */
  predicate LastOf(ts: seq<Terminal>, ids: map<string, nat>, k: nat)
  {
    forall id :: id in ids ==> ids[id] < k && ids[id] < |ts| && ts[ids[id]].id == id &&
                               forall j :: ids[id] < j < k && j < |ts| ==> ts[j].id != id
  }

  /** Registering terminal k - 1 under its id keeps LastOf. */
  lemma LastOfStep(ts: seq<Terminal>, ids: map<string, nat>, k: nat)
    requires 0 < k <= |ts| && LastOf(ts, ids, k - 1)
    ensures LastOf(ts, ids[ts[k - 1].id := k - 1], k)
  {
    var r := ids[ts[k - 1].id := k - 1];
    forall id | id in r
      ensures r[id] < k && r[id] < |ts| && ts[r[id]].id == id
      ensures forall j :: r[id] < j < k && j < |ts| ==> ts[j].id != id
    {
      if id != ts[k - 1].id {
        assert r[id] == ids[id];
      }
    }
  }

  /** Each id maps to the last terminal with that id. */
  lemma {:induction false} TerminalIdLast(g: Graph, mode: LeafMode, k: nat)
    requires k <= |g.terminals|
    ensures var st := TerminalTokens(g, mode, k);
            forall id :: id in st.ids ==> st.ids[id] < k && g.terminals[st.ids[id]].id == id &&
                                          forall j :: st.ids[id] < j < k ==> g.terminals[j].id != id
  {
    TerminalIdsLastOf(g, mode, k);
  }

  lemma {:induction false} TerminalIdsLastOf(g: Graph, mode: LeafMode, k: nat)
    requires k <= |g.terminals|
    ensures LastOf(g.terminals, TerminalTokens(g, mode, k).ids, k)
  {
    if k > 0 {
      TerminalIdsLastOf(g, mode, k - 1);
      TerminalCount(g, mode, k - 1);
      var pre := TerminalTokens(g, mode, k - 1);
      LastOfStep(g.terminals, pre.ids, k);
      TerminalIdsStep(g, mode, k);
    }
  }

  /** Terminal k - 1 is registered under its id at handle k - 1. */
  lemma TerminalIdsStep(g: Graph, mode: LeafMode, k: nat)
    requires 0 < k <= |g.terminals| && |TerminalTokens(g, mode, k - 1).arena| == k - 1
    ensures TerminalTokens(g, mode, k).ids == TerminalTokens(g, mode, k - 1).ids[g.terminals[k - 1].id := k - 1]
  {
  }

  /** Every handle in the dict and every recorded secondary edge names a node. */
  lemma {:induction false} TerminalHandled(g: Graph, mode: LeafMode, k: nat)
    requires k <= |g.terminals|
    ensures Handled(TerminalTokens(g, mode, k))
  {
    if k > 0 {
      TerminalHandled(g, mode, k - 1);
      AddTerminalHandled(TerminalTokens(g, mode, k - 1), k - 1, g.terminals[k - 1], mode);
    }
  }

  /** One terminal step names only nodes that exist. */
  lemma AddTerminalHandled(st: Tokens, idx: nat, t: Terminal, mode: LeafMode)
    requires Handled(st)
    ensures Handled(AddTerminal(st, idx, t, mode))
  {
    var r := AddTerminal(st, idx, t, mode);
    var n := Secedges(|st.arena|, t.secedges);
    assert r.secedges == st.secedges + n;
    forall i | 0 <= i < |r.secedges|
      ensures r.secedges[i].subtree < |r.arena|
    {
      if i >= |st.secedges| {
        assert r.secedges[i] == n[i - |st.secedges|];
      }
    }
  }

  /** num_terminals: the number of distinct terminal ids. */
  lemma NumTerminalsDistinct(g: Graph, mode: LeafMode)
    ensures |TerminalTokens(g, mode, |g.terminals|).ids| == |TerminalIdSet(g, |g.terminals|)|
  {
    TerminalIdKeys(g, mode, |g.terminals|);
  }

  /** The terminal pass of the builder. */
  method ReadTerminals(g: Graph, mode: LeafMode) returns (st: Tokens)
    ensures st == TerminalTokens(g, mode, |g.terminals|)
  {
    st := Tokens([], map[], {}, [], []);
    for idx := 0 to |g.terminals|
      invariant st == TerminalTokens(g, mode, idx)
    {
      var t := g.terminals[idx];
      var h := |st.arena|;
      var secs := RecordSecedges(h, t.secedges, st.secedges);
      st := Tokens(st.arena + [TerminalNode(mode, t, idx, h)], st.ids[t.id := h], st.terminalIds + {t.id},
                   secs, st.payloads + [TerminalPayload(t)]);
    }
  }

  // ---------------------------------------------------------------------------
  // The non-terminal pass
  // ---------------------------------------------------------------------------

  /** The dicts after (part of) the non-terminal pass, with root_id so far. */
  datatype Stage = Stage(tokens: Tokens, rootId: Option<string>)

  /** A non-terminal the builder skips: the VROOT itself, when it skips it. */
  predicate Skipped(g: Graph, skip: bool, nt: NonTerminal)
  {
    nt.id == g.root && skip
  }

  /** The root choice over the edges of a skipped VROOT: every edge that points
      to something other than a terminal replaces root_id. */
  function RootScan(r: Option<string>, es: seq<Edge>, tids: set<string>): Option<string>
  {
    if es == [] then r
    else
      var e := es[|es| - 1];
      if e.idref !in tids then Some(e.idref) else RootScan(r, es[..|es| - 1], tids)
  }

  /** One step of the non-terminal pass: a non-terminal the builder keeps gets
      an empty node with its category and line number idx; the skipped VROOT
      only moves root_id. */
  function AddNonterminal(st: Stage, idx: nat, nt: NonTerminal, g: Graph, skip: bool): Stage
  {
    if !Skipped(g, skip, nt) then
      var h := |st.tokens.arena|;
      st.(tokens := st.tokens.(arena := st.tokens.arena + [Node(Text(nt.cat), [], idx, None, None, None)],
                               ids := st.tokens.ids[nt.id := h],
                               secedges := st.tokens.secedges + Secedges(h, nt.secedges)))
    else
      st.(rootId := RootScan(st.rootId, nt.edges, st.tokens.terminalIds))
  }

  /** The dicts and root_id after the first k non-terminals, t0 being the dicts
      after the terminal pass; num_terminals is the size of t0's dict, and
      root_id starts as the graph's root unless it is skipped. */
  function NonterminalStage(g: Graph, skip: bool, t0: Tokens, k: nat): Stage
    requires k <= |g.nonterminals|
  {
    if k == 0 then Stage(t0, if skip then None else Some(g.root))
    else AddNonterminal(NonterminalStage(g, skip, t0, k - 1), k - 1 + |t0.ids|, g.nonterminals[k - 1], g, skip)
  }

  /** The edge targets of es that are not terminals, in order. */
  function NonterminalTargets(es: seq<Edge>, tids: set<string>): seq<string>
  {
    if es == [] then []
    else (if es[0].idref !in tids then [es[0].idref] else []) + NonterminalTargets(es[1..], tids)
  }

  /** The root candidates of the first k non-terminals: the edge targets of
      each skipped VROOT that are not terminals, in document order. */
  function RootCandidates(g: Graph, skip: bool, tids: set<string>, k: nat): seq<string>
    requires k <= |g.nonterminals|
  {
    if k == 0 then []
    else RootCandidates(g, skip, tids, k - 1) +
         (if Skipped(g, skip, g.nonterminals[k - 1]) then NonterminalTargets(g.nonterminals[k - 1].edges, tids) else [])
  }

  function Last(s: seq<string>): Option<string>
  {
    if s == [] then None else Some(s[|s| - 1])
  }

  lemma {:induction false} NonterminalTargetsSnoc(es: seq<Edge>, e: Edge, tids: set<string>)
    ensures NonterminalTargets(es + [e], tids) ==
            NonterminalTargets(es, tids) + (if e.idref !in tids then [e.idref] else [])
    decreases |es|
  {
    if es == [] {
      assert NonterminalTargets([e], tids) == (if e.idref !in tids then [e.idref] else []) + NonterminalTargets([], tids);
    } else {
      assert (es + [e])[1..] == es[1..] + [e];
      NonterminalTargetsSnoc(es[1..], e, tids);
    }
  }

  /** Scanning the edges leaves root_id at the last non-terminal target, and
      where it was when there is none. */
  lemma {:induction false} RootScanLast(r: Option<string>, es: seq<Edge>, tids: set<string>)
    ensures var c := NonterminalTargets(es, tids);
            RootScan(r, es, tids) == if c == [] then r else Last(c)
    decreases |es|
  {
    if es != [] {
      var init := es[..|es| - 1];
      var e := es[|es| - 1];
      assert es == init + [e];
      NonterminalTargetsSnoc(init, e, tids);
      RootScanLast(r, init, tids);
    }
  }

  /** root_id: the graph's root when it is not skipped, and otherwise the last
      target of a VROOT edge that is not a terminal (None when there is none). */
  lemma {:induction false} RootChoice(g: Graph, skip: bool, t0: Tokens, k: nat)
    requires k <= |g.nonterminals|
    ensures NonterminalStage(g, skip, t0, k).tokens.terminalIds == t0.terminalIds
    ensures NonterminalStage(g, skip, t0, k).rootId ==
              if skip then Last(RootCandidates(g, skip, t0.terminalIds, k)) else Some(g.root)
  {
    if k > 0 {
      RootChoice(g, skip, t0, k - 1);
      var tids := t0.terminalIds;
      var nt := g.nonterminals[k - 1];
      if Skipped(g, skip, nt) {
        var pre := RootCandidates(g, skip, tids, k - 1);
        RootScanLast(NonterminalStage(g, skip, t0, k - 1).rootId, nt.edges, tids);
        var c := NonterminalTargets(nt.edges, tids);
        if c == [] {
          assert RootCandidates(g, skip, tids, k) == pre;
        } else {
          assert RootCandidates(g, skip, tids, k) == pre + c;
        }
      }
    }
  }

  /** How many of the first j non-terminals the builder keeps. */
  function Kept(g: Graph, skip: bool, j: nat): nat
    requires j <= |g.nonterminals|
  {
    if j == 0 then 0 else Kept(g, skip, j - 1) + (if Skipped(g, skip, g.nonterminals[j - 1]) then 0 else 1)
  }

  /** The non-terminal pass leaves the terminal nodes, the payloads and the
      terminal ids as they were, adds one node per kept non-terminal, puts the
      id of each kept non-terminal in the dict, and keeps every handle in the
      dict and every recorded secondary edge naming a node. */
  lemma {:induction false} NonterminalFrame(g: Graph, skip: bool, t0: Tokens, k: nat)
    requires k <= |g.nonterminals| && Handled(t0)
    ensures var st := NonterminalStage(g, skip, t0, k).tokens;
            |st.arena| == |t0.arena| + Kept(g, skip, k) && st.arena[..|t0.arena|] == t0.arena &&
            st.payloads == t0.payloads && st.terminalIds == t0.terminalIds && Handled(st) &&
            forall j :: 0 <= j < k && !Skipped(g, skip, g.nonterminals[j]) ==> g.nonterminals[j].id in st.ids
  {
    if k == 0 {
      assert t0.arena[..|t0.arena|] == t0.arena;
    } else {
      NonterminalFrame(g, skip, t0, k - 1);
      var pre := NonterminalStage(g, skip, t0, k - 1).tokens;
      var st := NonterminalStage(g, skip, t0, k).tokens;
      if !Skipped(g, skip, g.nonterminals[k - 1]) {
        assert st.arena[..|t0.arena|] == pre.arena[..|t0.arena|];
      }
    }
  }

  /** Kept non-terminal j is a childless node labelled with its category, with
      line number j + num_terminals, at the handle after the terminals and the
      kept non-terminals before it. */
  lemma {:induction false} NonterminalNodeAt(g: Graph, skip: bool, t0: Tokens, k: nat, j: nat)
    requires j < k <= |g.nonterminals| && !Skipped(g, skip, g.nonterminals[j])
    ensures |NonterminalStage(g, skip, t0, k).tokens.arena| == |t0.arena| + Kept(g, skip, k)
    ensures Kept(g, skip, j) < Kept(g, skip, k)
    ensures NonterminalStage(g, skip, t0, k).tokens.arena[|t0.arena| + Kept(g, skip, j)] ==
              Node(Text(g.nonterminals[j].cat), [], j + |t0.ids|, None, None, None)
  {
    NonterminalCount(g, skip, t0, k);
    KeptMono(g, skip, j + 1, k);
    if j < k - 1 {
      NonterminalNodeAt(g, skip, t0, k - 1, j);
    }
    NonterminalNodeStep(g, skip, t0, k, j);
  }

  /** The step of NonterminalNodeAt: the last non-terminal of the first k
      either places node j or leaves the node placed before in place. */
  lemma NonterminalNodeStep(g: Graph, skip: bool, t0: Tokens, k: nat, j: nat)
    requires j < k <= |g.nonterminals| && !Skipped(g, skip, g.nonterminals[j])
    requires j < k - 1 ==>
               |t0.arena| + Kept(g, skip, j) < |NonterminalStage(g, skip, t0, k - 1).tokens.arena| &&
               NonterminalStage(g, skip, t0, k - 1).tokens.arena[|t0.arena| + Kept(g, skip, j)] ==
                 Node(Text(g.nonterminals[j].cat), [], j + |t0.ids|, None, None, None)
    ensures |t0.arena| + Kept(g, skip, j) < |NonterminalStage(g, skip, t0, k).tokens.arena|
    ensures NonterminalStage(g, skip, t0, k).tokens.arena[|t0.arena| + Kept(g, skip, j)] ==
              Node(Text(g.nonterminals[j].cat), [], j + |t0.ids|, None, None, None)
  {
    var pre := NonterminalStage(g, skip, t0, k - 1);
    var h := |t0.arena| + Kept(g, skip, j);
    NonterminalCount(g, skip, t0, k - 1);
    assert NonterminalStage(g, skip, t0, k).tokens.arena ==
           AddNonterminal(pre, k - 1 + |t0.ids|, g.nonterminals[k - 1], g, skip).tokens.arena;
    AddNonterminalAt(pre, k - 1 + |t0.ids|, g.nonterminals[k - 1], g, skip, h);
  }

  /** Adding a kept non-terminal keeps the nodes made before it and puts its
      own empty node at the end; a skipped one adds no node. */
  lemma AddNonterminalAt(st: Stage, idx: nat, nt: NonTerminal, g: Graph, skip: bool, i: nat)
    requires i < |AddNonterminal(st, idx, nt, g, skip).tokens.arena|
    ensures var r := AddNonterminal(st, idx, nt, g, skip).tokens.arena;
            r[i] == (if i < |st.tokens.arena| then st.tokens.arena[i] else Node(Text(nt.cat), [], idx, None, None, None))
  {
  }

  lemma {:induction false} NonterminalCount(g: Graph, skip: bool, t0: Tokens, k: nat)
    requires k <= |g.nonterminals|
    ensures |NonterminalStage(g, skip, t0, k).tokens.arena| == |t0.arena| + Kept(g, skip, k)
  {
    if k > 0 {
      NonterminalCount(g, skip, t0, k - 1);
    }
  }

  lemma {:induction false} KeptMono(g: Graph, skip: bool, i: nat, j: nat)
    requires i <= j <= |g.nonterminals|
    ensures Kept(g, skip, i) <= Kept(g, skip, j)
    decreases j - i
  {
    if i < j {
      KeptMono(g, skip, i, j - 1);
    }
  }

  /** The loop that records the secondary edges of one element. */
  method RecordSecedges(h: nat, es: seq<Edge>, secs: seq<Secedge>) returns (r: seq<Secedge>)
    ensures r == secs + Secedges(h, es)
  {
    r := secs;
    for k := 0 to |es|
      invariant r == secs + Secedges(h, es[..k])
    {
      r := r + [Secedge(h, Text(es[k].edgeLabel), es[k].idref)];
    }
    assert es[..|es|] == es;
  }

  /** The loop over the edges of a skipped VROOT that moves root_id. */
  method ScanRoot(r0: Option<string>, es: seq<Edge>, tids: set<string>) returns (r: Option<string>)
    ensures r == RootScan(r0, es, tids)
  {
    r := r0;
    for k := 0 to |es|
      invariant r == RootScan(r0, es[..k], tids)
    {
      assert es[..k + 1][..k] == es[..k];
      if es[k].idref !in tids {
        r := Some(es[k].idref);
      }
    }
    assert es[..|es|] == es;
  }

  /** The non-terminal pass of the builder. */
  method ReadNonterminals(g: Graph, skip: bool, terminals: Tokens) returns (st: Stage)
    ensures st == NonterminalStage(g, skip, terminals, |g.nonterminals|)
  {
    var numTerminals := |terminals.ids|;
    st := Stage(terminals, if skip then None else Some(g.root));
    for j := 0 to |g.nonterminals|
      invariant st == NonterminalStage(g, skip, terminals, j)
    {
      var nt := g.nonterminals[j];
      if !(nt.id == g.root && skip) {
        var h := |st.tokens.arena|;
        var secs := RecordSecedges(h, nt.secedges, st.tokens.secedges);
        var tok := Node(Text(nt.cat), [], j + numTerminals, None, None, None);
        st := st.(tokens := st.tokens.(arena := st.tokens.arena + [tok], ids := st.tokens.ids[nt.id := h],
                                       secedges := secs));
      } else {
        var rootId := ScanRoot(st.rootId, nt.edges, st.tokens.terminalIds);
        st := st.(rootId := rootId);
      }
    }
  }
}
