/** Three sentence graphs traced through the TIGER-XML tree builder: a plain one,
    one whose technical VROOT is skipped and whose punctuation is re-hung under
    the real root, and one that attaches a terminal twice. */
module TigerExamples {
  import opened Arena
  import opened TigerGraph
  import opened TigerAttach
  import opened TigerBuild

  function Word(id: string, word: string, pos: string): Terminal
  {
    Terminal(id, Some(word), Some(pos), None, None, [])
  }

  function To(tag: string, id: string): Edge
  {
    Edge(Some(tag), id)
  }

  function Unary(tag: string, word: string, lineno: int, edge: string): Node
  {
    Node(tag, [Tip(Leaf.Word(word))], lineno, Some(edge), None, None)
  }

  /** "Hallo !": S with head Hallo and punctuation. */
  const Hello: Graph :=
    Graph("s1_500", [Word("s1_1", "Hallo", "ITJ"), Word("s1_2", "!", "$.")],
          [NonTerminal("s1_500", Some("S"), [To("HD", "s1_1"), To("--", "s1_2")], [])])

  /** S(ITJ Hallo, $. !): the terminals get handles 0 and 1, S handle 2 and
      line number 2, after the two terminals. */
  const HelloTree: seq<Node> :=
    [Unary("ITJ", "Hallo", 0, "HD"), Unary("$.", "!", 1, "--"), Node("S", [Sub(0), Sub(1)], 2, None, None, None)]

  /** A terminal's node before the attachment pass. */
  function Bare(tag: string, word: string, lineno: int): Node
  {
    Node(tag, [Tip(Leaf.Word(word))], lineno, None, None, None)
  }

  lemma HelloRead()
    ensures ReadStage(Hello, BareLeaves, false) ==
              Stage(Tokens([Bare("ITJ", "Hallo", 0), Bare("$.", "!", 1), Node("S", [], 2, None, None, None)],
                           map["s1_1" := 0, "s1_2" := 1, "s1_500" := 2], {"s1_1", "s1_2"}, [],
                           [TerminalPayload(Hello.terminals[0]), TerminalPayload(Hello.terminals[1])]),
                    Some("s1_500"))
  {
    var t1 := Tokens([Bare("ITJ", "Hallo", 0)], map["s1_1" := 0], {"s1_1"}, [],
                     [TerminalPayload(Hello.terminals[0])]);
    assert TerminalTokens(Hello, BareLeaves, 1) == t1;
    var ids := map["s1_1" := 0, "s1_2" := 1];
    var t2 := Tokens([Bare("ITJ", "Hallo", 0), Bare("$.", "!", 1)], ids, {"s1_1", "s1_2"}, [],
                     [TerminalPayload(Hello.terminals[0]), TerminalPayload(Hello.terminals[1])]);
    assert TerminalTokens(Hello, BareLeaves, 2) == t2;
    assert ids.Keys == {"s1_1", "s1_2"};
    assert |ids| == 2;
    assert NonterminalStage(Hello, false, t2, 0) == Stage(t2, Some("s1_500"));
    assert Secedges(2, []) == [];
    assert NonterminalStage(Hello, false, t2, 1) ==
           AddNonterminal(Stage(t2, Some("s1_500")), 2, Hello.nonterminals[0], Hello, false);
  }

  /** Attaching a bare terminal's node c under node p. */
  lemma HangBare(a: seq<Node>, c: nat, p: nat, text: string)
    requires c < |a| && p < |a| && c != p && |a[c].kids| == 1 && a[c].kids[0].Tip? && a[c].kids[0].leaf.Word?
    ensures Append(Relabel(a, c, text), p, Sub(c)) ==
            a[c := a[c].(edge := Some(text))][p := a[p].(kids := a[p].kids + [Sub(c)])]
  {
  }

  /** The attachment pass over "Hallo !". */
  lemma HelloAttached(cx: Ctx)
    requires cx == Ctx(map["s1_1" := 0, "s1_2" := 1, "s1_500" := 2], "s1_500", false, Some("s1_500"))
    ensures Attached(AState([Bare("ITJ", "Hallo", 0), Bare("$.", "!", 1), Node("S", [], 2, None, None, None)], {}),
                     AllLinks(Hello.nonterminals, 1), cx) == Next(AState(HelloTree, {"s1_1", "s1_2"}))
  {
    var a0 := [Bare("ITJ", "Hallo", 0), Bare("$.", "!", 1), Node("S", [], 2, None, None, None)];
    var xs := AllLinks(Hello.nonterminals, 1);
    assert xs == [Link("s1_500", To("HD", "s1_1")), Link("s1_500", To("--", "s1_2"))];
    var a1 := [Unary("ITJ", "Hallo", 0, "HD"), Bare("$.", "!", 1), Node("S", [Sub(0)], 2, None, None, None)];
    var none: set<string> := {};
    AttachKeptStep(AState(a0, none), xs[0], cx);
    HangBare(a0, 0, 2, "HD");
    assert [] + [Sub(0)] == [Sub(0)] && none + {"s1_1"} == {"s1_1"};
    assert a0[0 := a0[0].(edge := Some("HD"))][2 := a0[2].(kids := a0[2].kids + [Sub(0)])] == a1;
    assert AttachLink(AState(a0, none), xs[0], cx) == Next(AState(a1, {"s1_1"}));
    assert Attached(AState(a0, none), xs[..1], cx) == Next(AState(a1, {"s1_1"})) by {
      assert xs[..1] == [xs[0]] && xs[..1][..0] == [];
    }
    AttachKeptStep(AState(a1, {"s1_1"}), xs[1], cx);
    HangBare(a1, 1, 2, "--");
    assert [Sub(0)] + [Sub(1)] == [Sub(0), Sub(1)] && {"s1_1"} + {"s1_2"} == {"s1_1", "s1_2"};
    assert a1[1 := a1[1].(edge := Some("--"))][2 := a1[2].(kids := a1[2].kids + [Sub(1)])] == HelloTree;
    assert AttachLink(AState(a1, {"s1_1"}), xs[1], cx) == Next(AState(HelloTree, {"s1_1", "s1_2"}));
  }

  lemma HelloBuilt()
    ensures Prepared(Hello, BareLeaves).Next?
    ensures Prepared(Hello, BareLeaves).value.tokens.secedges == []
    ensures var p := Prepared(Hello, BareLeaves).value;
            Rooted(p, p.arena) == Built(HelloTree, 2)
  {
    SkipCorpusVroot(Hello, "s1", "500", "");
    LowerIsVroot("500");
    HelloRead();
    HelloAttached(Context(Hello, false, ReadStage(Hello, BareLeaves, false)));
  }

  /** The corpus form: a VROOT over S, whose punctuation the annotators hung
      from the VROOT.  "Ja ." with S(ITJ Ja) under VROOT and $. under VROOT. */
  const Yes: Graph :=
    Graph("s2_VROOT", [Word("s2_1", "Ja", "ITJ"), Word("s2_2", ".", "$.")],
          [NonTerminal("s2_500", Some("S"), [To("HD", "s2_1")], []),
           NonTerminal("s2_VROOT", Some("VROOT"), [To("--", "s2_500"), To("--", "s2_2")], [])])

  /** The VROOT is dropped, S becomes the root, and the full stop is re-hung
      under S with the VROOT edge's label. */
  const YesTree: seq<Node> :=
    [Unary("ITJ", "Ja", 0, "HD"), Unary("$.", ".", 1, "--"), Node("S", [Sub(0), Sub(1)], 2, None, None, None)]

  lemma YesRead()
    ensures ReadStage(Yes, BareLeaves, true) ==
              Stage(Tokens([Bare("ITJ", "Ja", 0), Bare("$.", ".", 1), Node("S", [], 2, None, None, None)],
                           map["s2_1" := 0, "s2_2" := 1, "s2_500" := 2], {"s2_1", "s2_2"}, [],
                           [TerminalPayload(Yes.terminals[0]), TerminalPayload(Yes.terminals[1])]),
                    Some("s2_500"))
  {
    var t1 := Tokens([Bare("ITJ", "Ja", 0)], map["s2_1" := 0], {"s2_1"}, [], [TerminalPayload(Yes.terminals[0])]);
    assert TerminalTokens(Yes, BareLeaves, 1) == t1;
    var ids := map["s2_1" := 0, "s2_2" := 1];
    var t2 := Tokens([Bare("ITJ", "Ja", 0), Bare("$.", ".", 1)], ids, {"s2_1", "s2_2"}, [],
                     [TerminalPayload(Yes.terminals[0]), TerminalPayload(Yes.terminals[1])]);
    assert TerminalTokens(Yes, BareLeaves, 2) == t2;
    assert ids.Keys == {"s2_1", "s2_2"};
    assert |ids| == 2;
    assert NonterminalStage(Yes, true, t2, 0) == Stage(t2, None);
    assert Secedges(2, []) == [];
    var s1 := Stage(t2.(arena := t2.arena + [Node("S", [], 2, None, None, None)], ids := ids["s2_500" := 2]), None);
    assert NonterminalStage(Yes, true, t2, 1) == AddNonterminal(Stage(t2, None), 2, Yes.nonterminals[0], Yes, true);
    assert NonterminalStage(Yes, true, t2, 1) == s1;
    var es := Yes.nonterminals[1].edges;
    assert RootScan(None, es[..1], t2.terminalIds) == Some("s2_500") by {
      assert es[..1][..0] == [];
    }
    assert RootScan(None, es, t2.terminalIds) == Some("s2_500");
    assert NonterminalStage(Yes, true, t2, 2) == AddNonterminal(s1, 3, Yes.nonterminals[1], Yes, true);
  }

  /** The edge records of "Ja .", in document order. */
  const YesLinks: seq<Link> :=
    [Link("s2_500", To("HD", "s2_1")), Link("s2_VROOT", To("--", "s2_500")), Link("s2_VROOT", To("--", "s2_2"))]

  /** The arena after the S edge to "Ja". */
  const YesHalf: seq<Node> :=
    [Unary("ITJ", "Ja", 0, "HD"), Bare("$.", ".", 1), Node("S", [Sub(0)], 2, None, None, None)]

  lemma YesLinksAre()
    ensures AllLinks(Yes.nonterminals, 2) == YesLinks
  {
    assert AllLinks(Yes.nonterminals, 1) == [YesLinks[0]];
  }

  /** S's edge hangs "Ja" under S with label HD. */
  lemma YesHead(cx: Ctx)
    requires cx == Ctx(map["s2_1" := 0, "s2_2" := 1, "s2_500" := 2], "s2_VROOT", true, Some("s2_500"))
    ensures AttachLink(AState([Bare("ITJ", "Ja", 0), Bare("$.", ".", 1), Node("S", [], 2, None, None, None)], {}),
                       YesLinks[0], cx) == Next(AState(YesHalf, {"s2_1"}))
  {
    var a0 := [Bare("ITJ", "Ja", 0), Bare("$.", ".", 1), Node("S", [], 2, None, None, None)];
    var none: set<string> := {};
    AttachKeptStep(AState(a0, none), YesLinks[0], cx);
    HangBare(a0, 0, 2, "HD");
    assert [] + [Sub(0)] == [Sub(0)] && none + {"s2_1"} == {"s2_1"};
    assert a0[0 := a0[0].(edge := Some("HD"))][2 := a0[2].(kids := a0[2].kids + [Sub(0)])] == YesHalf;
  }

  /** The VROOT's edge to the full stop re-hangs it under S with label --. */
  lemma YesStop(cx: Ctx)
    requires cx == Ctx(map["s2_1" := 0, "s2_2" := 1, "s2_500" := 2], "s2_VROOT", true, Some("s2_500"))
    ensures AttachLink(AState(YesHalf, {"s2_1"}), YesLinks[2], cx) == Next(AState(YesTree, {"s2_1"}))
  {
    HangBare(YesHalf, 1, 2, "--");
    assert [Sub(0)] + [Sub(1)] == [Sub(0), Sub(1)];
    assert YesHalf[1 := YesHalf[1].(edge := Some("--"))][2 := YesHalf[2].(kids := YesHalf[2].kids + [Sub(1)])]
           == YesTree;
    assert Attaches(cx, YesLinks[2]) && !FromKept(cx, YesLinks[2]) && OwnerId(cx, YesLinks[2]) == Some("s2_500");
  }

  /** The attachment pass over "Ja .": the VROOT's edge to S is passed over, its
      edge to the full stop re-hangs it under S. */
  lemma YesAttached(cx: Ctx)
    requires cx == Ctx(map["s2_1" := 0, "s2_2" := 1, "s2_500" := 2], "s2_VROOT", true, Some("s2_500"))
    ensures Attached(AState([Bare("ITJ", "Ja", 0), Bare("$.", ".", 1), Node("S", [], 2, None, None, None)], {}),
                     AllLinks(Yes.nonterminals, 2), cx) == Next(AState(YesTree, {"s2_1"}))
  {
    var st := AState([Bare("ITJ", "Ja", 0), Bare("$.", ".", 1), Node("S", [], 2, None, None, None)], {});
    YesLinksAre();
    YesHead(cx);
    YesStop(cx);
    AttachedSnoc(st, [], YesLinks[0], cx);
    assert [] + [YesLinks[0]] == YesLinks[..1];
    assert !Attaches(cx, YesLinks[1]) && !FromKept(cx, YesLinks[1]);
    AttachedSnoc(st, YesLinks[..1], YesLinks[1], cx);
    assert YesLinks[..1] + [YesLinks[1]] == YesLinks[..2];
    AttachedSnoc(st, YesLinks[..2], YesLinks[2], cx);
    assert YesLinks[..2] + [YesLinks[2]] == YesLinks;
  }

  lemma YesBuilt()
    ensures Prepared(Yes, BareLeaves).Next?
    ensures Prepared(Yes, BareLeaves).value.tokens.secedges == []
    ensures var p := Prepared(Yes, BareLeaves).value;
            Rooted(p, p.arena) == Built(YesTree, 2)
  {
    SkipCorpusVroot(Yes, "s2", "VROOT", "");
    LowerIsVroot("VROOT");
    YesRead();
    YesAttached(Context(Yes, true, ReadStage(Yes, BareLeaves, true)));
  }

  /** Two constituents claiming the same word: the builder returns None. */
  const Twice: Graph :=
    Graph("s3_500", [Word("s3_1", "Ja", "ITJ")],
          [NonTerminal("s3_500", Some("S"), [To("HD", "s3_1")], []),
           NonTerminal("s3_501", Some("NP"), [To("NK", "s3_1")], [])])

  lemma TwiceRead()
    ensures ReadStage(Twice, BareLeaves, false).tokens.ids == map["s3_1" := 0, "s3_500" := 1, "s3_501" := 2]
    ensures |ReadStage(Twice, BareLeaves, false).tokens.arena| == 3
    ensures ReadStage(Twice, BareLeaves, false).rootId == Some("s3_500")
  {
    var ids := map["s3_1" := 0];
    var t1 := Tokens([Bare("ITJ", "Ja", 0)], ids, {"s3_1"}, [], [TerminalPayload(Twice.terminals[0])]);
    assert TerminalTokens(Twice, BareLeaves, 1) == t1;
    assert ids.Keys == {"s3_1"};
    assert |ids| == 1;
    assert Secedges(1, []) == [] && Secedges(2, []) == [];
    var s0 := Stage(t1, Some("s3_500"));
    assert NonterminalStage(Twice, false, t1, 0) == s0;
    var s1 := AddNonterminal(s0, 1, Twice.nonterminals[0], Twice, false);
    assert NonterminalStage(Twice, false, t1, 1) == s1;
    assert s1.tokens.ids == map["s3_1" := 0, "s3_500" := 1];
    assert NonterminalStage(Twice, false, t1, 2) == AddNonterminal(s1, 2, Twice.nonterminals[1], Twice, false);
  }

  /** The second claim on s3_1 ends the attachment pass. */
  lemma TwiceAttached(a: seq<Node>, cx: Ctx)
    requires |a| == 3 && cx == Ctx(map["s3_1" := 0, "s3_500" := 1, "s3_501" := 2], "s3_500", false, Some("s3_500"))
    ensures Attached(AState(a, {}), AllLinks(Twice.nonterminals, 2), cx) == Stop(NoTree)
  {
    var l0, l1 := Link("s3_500", To("HD", "s3_1")), Link("s3_501", To("NK", "s3_1"));
    assert AllLinks(Twice.nonterminals, 1) == [l0];
    assert AllLinks(Twice.nonterminals, 2) == [l0] + [l1];
    var none: set<string> := {};
    var st := AState(a, none);
    AttachKeptStep(st, l0, cx);
    assert none + {"s3_1"} == {"s3_1"};
    AttachedSnoc(st, [], l0, cx);
    assert [] + [l0] == [l0];
    AttachedSnoc(st, [l0], l1, cx);
  }

  lemma TwiceNoTree()
    ensures Prepared(Twice, BareLeaves) == Stop(NoTree)
  {
    SkipCorpusVroot(Twice, "s3", "500", "");
    LowerIsVroot("500");
    TwiceRead();
    var st := ReadStage(Twice, BareLeaves, false);
    TwiceAttached(st.tokens.arena, Context(Twice, false, st));
  }
}
