/** Two sentences traced through the NEGRA tree builder: the example of the
    reader's class documentation, and a sentence whose last chunk never reaches
    the root because the builder attaches ancestors only when the parent
    changes. */
module NegraExamples {
  import opened Arena
  import opened PyStr
  import opened NegraRegister
  import opened NegraTerminals
  import opened NegraBuild

  /** A row as the bare-word reader makes it: words, tag and parent only. */
  function Bare(words: string, pos: string, parent: string): Row
  {
    Row(words, pos, parent, None, None, None, None, None)
  }

  /** The documentation's sentence, read with columns words, lemma, pos, parent. */
  const HouseRows: seq<Row> := [
    Bare("The", "DET", "500"), Bare("house", "N", "500"), Bare("is", "V", "501"),
    Bare("red", "ADJ", "501"), Bare(".", ".", "502"),
    Bare("#500", "NP", "502"), Bare("#501", "VP", "502"), Bare("#502", "S", "0")]

  function Inner(tag: string, kids: seq<Item>, lineno: int): Node
  {
    Node(tag, kids, lineno, None, None, None)
  }

  function Unary(tag: string, word: string, lineno: int): Node
  {
    Node(tag, [Tip(Word(word))], lineno, None, None, None)
  }

  /** S(NP(DET The, N house), VP(V is, ADJ red), . .): the non-terminals get
      handles 0 (S), 1 (VP), 2 (NP) in registration order, the terminals 3 to 7. */
  const HouseTree: seq<Node> := [
    Inner("S", [Sub(2), Sub(1), Sub(7)], 7), Inner("VP", [Sub(5), Sub(6)], 6),
    Inner("NP", [Sub(3), Sub(4)], 5),
    Unary("DET", "The", 0), Unary("N", "house", 1), Unary("V", "is", 2), Unary("ADJ", "red", 3),
    Unary(".", ".", 4)]

  /** Registering a non-terminal row without secondary-edge copying. */
  lemma PlainStep(st: Reg, lineno: nat, row: Row, w: int, p: int)
    requires IsNonterminal(row) && IdOf(row) == Some(w) && ParentOf(row) == Some(p)
    ensures var top := if st.top.None? && p == 0 then Some(w) else st.top;
            RegStep(st, lineno, row, false) ==
            Ok(st.(arena := st.arena + [RowNode(row, lineno, false)], nodes := st.nodes[w := |st.arena|],
                   parents := st.parents[w := if p == 0 then top.value else p], top := top,
                   ids := st.ids + [w]))
  {
  }

  /** Registration of the documentation's sentence: S, VP and NP in that order,
      S is the root, and NP and VP hang from it. */
  lemma HouseRegistered()
    ensures Registered(HouseRows, 0, false) == Ok(HouseReg)
  {
    Numbers();
    var r7 := Reg([Inner("S", [], 7)], map[502 := 0], map[502 := 502], Some(502), [502], []);
    var r6 := Reg([Inner("S", [], 7), Inner("VP", [], 6)], map[502 := 0, 501 := 1],
                  map[502 := 502, 501 := 502], Some(502), [502, 501], []);
    assert HouseRows[7].words[1..] == "502" && HouseRows[6].words[1..] == "501" &&
           HouseRows[5].words[1..] == "500";
    PlainStep(NoneRegistered, 7, HouseRows[7], 502, 0);
    assert RowNode(HouseRows[7], 7, false) == Inner("S", [], 7);
    assert [] + [Inner("S", [], 7)] == r7.arena && map[][502 := 0] == r7.nodes;
    assert map[][502 := 502] == r7.parents && [] + [502] == r7.ids;
    assert RegStep(NoneRegistered, 7, HouseRows[7], false) == Ok(r7);
    assert Registered(HouseRows, 7, false) == Ok(r7);
    PlainStep(r7, 6, HouseRows[6], 501, 502);
    assert RowNode(HouseRows[6], 6, false) == Inner("VP", [], 6);
    assert r7.arena + [Inner("VP", [], 6)] == r6.arena;
    assert r7.nodes[501 := 1] == r6.nodes && r7.parents[501 := 502] == r6.parents;
    assert r7.ids + [501] == r6.ids;
    assert RegStep(r7, 6, HouseRows[6], false) == Ok(r6);
    assert Registered(HouseRows, 6, false) == Ok(r6);
    PlainStep(r6, 5, HouseRows[5], 500, 502);
    assert RowNode(HouseRows[5], 5, false) == Inner("NP", [], 5);
    assert r6.arena + [Inner("NP", [], 5)] == HouseReg.arena;
    assert r6.nodes[500 := 2] == HouseReg.nodes && r6.parents[500 := 502] == HouseReg.parents;
    assert r6.ids + [500] == HouseReg.ids;
    assert RegStep(r6, 5, HouseRows[5], false) == Ok(HouseReg);
    assert Registered(HouseRows, 5, false) == Ok(HouseReg);
    assert forall k :: 0 <= k < 5 ==> !IsNonterminal(HouseRows[k]);
  }

  const HouseReg := Reg([Inner("S", [], 7), Inner("VP", [], 6), Inner("NP", [], 5)],
                        map[502 := 0, 501 := 1, 500 := 2], map[502 := 502, 501 := 502, 500 := 502],
                        Some(502), [502, 501, 500], [])

  /** Appending a child changes only the parent's children. */
  lemma AppendIs(a: seq<Node>, p: nat, x: Item, r: seq<Node>)
    requires p < |a| == |r| && r[p] == a[p].(kids := a[p].kids + [x])
    requires forall k :: 0 <= k < |a| && k != p ==> r[k] == a[k]
    ensures Append(a, p, x) == r
  {
  }

  /** Placing a bare-word terminal that has no secondary edge. */
  lemma PlainPlace(a: seq<Node>, reg: Reg, top: int, parent: int, lineno: nat, row: Row)
    requires Handles(reg.nodes, |a|) && parent in reg.nodes && row.edge.None? && row.secedge.None? &&
             row.comment.None?
    ensures PlaceTerminal(a, reg, top, parent, lineno, row, BareLeaves, false) ==
            Next(Append(a + [Unary(row.pos, row.words, lineno)], reg.nodes[parent], Sub(|a|)))
  {
  }

  // The arena after each terminal row (Hk) and after each chunk close (Ck).
  const H1 := [Inner("S", [], 7), Inner("VP", [], 6), Inner("NP", [Sub(3)], 5), Unary("DET", "The", 0)]
  const H2 := [Inner("S", [], 7), Inner("VP", [], 6), Inner("NP", [Sub(3), Sub(4)], 5), Unary("DET", "The", 0),
               Unary("N", "house", 1)]
  const C2 := [Inner("S", [Sub(2)], 7), Inner("VP", [], 6), Inner("NP", [Sub(3), Sub(4)], 5),
               Unary("DET", "The", 0), Unary("N", "house", 1)]
  const H3 := [Inner("S", [Sub(2)], 7), Inner("VP", [Sub(5)], 6), Inner("NP", [Sub(3), Sub(4)], 5),
               Unary("DET", "The", 0), Unary("N", "house", 1), Unary("V", "is", 2)]
  const H4 := [Inner("S", [Sub(2)], 7), Inner("VP", [Sub(5), Sub(6)], 6), Inner("NP", [Sub(3), Sub(4)], 5),
               Unary("DET", "The", 0), Unary("N", "house", 1), Unary("V", "is", 2), Unary("ADJ", "red", 3)]
  const C4 := [Inner("S", [Sub(2), Sub(1)], 7), Inner("VP", [Sub(5), Sub(6)], 6),
               Inner("NP", [Sub(3), Sub(4)], 5), Unary("DET", "The", 0), Unary("N", "house", 1),
               Unary("V", "is", 2), Unary("ADJ", "red", 3)]

  lemma HouseRow0()
    ensures TerminalStep(TState(HouseReg.arena, None), HouseReg, 502, 0, HouseRows[0], BareLeaves, false) ==
            Next(TState(H1, Some(500)))
  {
    Numbers();
    PlainPlace(HouseReg.arena, HouseReg, 502, 500, 0, HouseRows[0]);
    AppendIs(HouseReg.arena + [Unary("DET", "The", 0)], 2, Sub(3), H1);
  }

  lemma HouseRow1()
    ensures TerminalStep(TState(H1, Some(500)), HouseReg, 502, 1, HouseRows[1], BareLeaves, false) ==
            Next(TState(H2, Some(500)))
  {
    Numbers();
    PlainPlace(H1, HouseReg, 502, 500, 1, HouseRows[1]);
    AppendIs(H1 + [Unary("N", "house", 1)], 2, Sub(4), H2);
  }

  /** "is" changes the parent: NP goes under S before V goes under VP. */
  lemma HouseRow2()
    ensures TerminalStep(TState(H2, Some(500)), HouseReg, 502, 2, HouseRows[2], BareLeaves, false) ==
            Next(TState(H3, Some(501)))
  {
    Numbers();
    assert Climb(C2, HouseReg.nodes, HouseReg.parents, 502, 502, 2) == Next(C2);
    AppendIs(H2, 0, Sub(2), C2);
    assert Climb(H2, HouseReg.nodes, HouseReg.parents, 502, 500, 3) == Next(C2);
    PlainPlace(C2, HouseReg, 502, 501, 2, HouseRows[2]);
    AppendIs(C2 + [Unary("V", "is", 2)], 1, Sub(5), H3);
  }

  lemma HouseRow3()
    ensures TerminalStep(TState(H3, Some(501)), HouseReg, 502, 3, HouseRows[3], BareLeaves, false) ==
            Next(TState(H4, Some(501)))
  {
    Numbers();
    PlainPlace(H3, HouseReg, 502, 501, 3, HouseRows[3]);
    AppendIs(H3 + [Unary("ADJ", "red", 3)], 1, Sub(6), H4);
  }

  /** The full stop changes the parent: VP goes under S, then the stop itself. */
  lemma HouseRow4()
    ensures TerminalStep(TState(H4, Some(501)), HouseReg, 502, 4, HouseRows[4], BareLeaves, false) ==
            Next(TState(HouseTree, Some(502)))
  {
    Numbers();
    assert Climb(C4, HouseReg.nodes, HouseReg.parents, 502, 502, 2) == Next(C4);
    AppendIs(H4, 0, Sub(1), C4);
    assert Climb(H4, HouseReg.nodes, HouseReg.parents, 502, 501, 3) == Next(C4);
    PlainPlace(C4, HouseReg, 502, 502, 4, HouseRows[4]);
    AppendIs(C4 + [Unary(".", ".", 4)], 0, Sub(7), HouseTree);
  }

  /** The terminal pass over the documentation's sentence: each parent change
      hangs the finished phrase under S, and the full stop goes to S directly. */
  lemma HouseTerminals()
    ensures Terminals(HouseRows[..5], 5, HouseReg, 502, BareLeaves, false) == Next(TState(HouseTree, Some(502)))
  {
    var terms := HouseRows[..5];
    assert Handles(HouseReg.nodes, |HouseReg.arena|);
    assert forall k :: 0 <= k < 5 ==> terms[k] == HouseRows[k];
    HouseRow0();
    NextRow(terms, 0, HouseReg, 502, TState(HouseReg.arena, None));
    HouseRow1();
    NextRow(terms, 1, HouseReg, 502, TState(H1, Some(500)));
    HouseRow2();
    NextRow(terms, 2, HouseReg, 502, TState(H2, Some(500)));
    HouseRow3();
    NextRow(terms, 3, HouseReg, 502, TState(H3, Some(501)));
    HouseRow4();
    NextRow(terms, 4, HouseReg, 502, TState(H4, Some(501)));
  }

  /** The builder up to the replay on the documentation's sentence. */
  lemma HousePrepared()
    ensures Prepared(HouseRows, BareLeaves, false) == Next(Stage(HouseReg, 502, HouseTree))
  {
    HouseRegistered();
    assert HouseReg.nodes.Keys == {500, 501, 502};
    assert |HouseReg.nodes| == 3;
    assert TerminalRows(HouseRows, HouseReg) == HouseRows[..5];
    HouseTerminals();
  }

  /** parsed_sents on the documentation's sentence gives
      S(NP(DET The, N house), VP(V is, ADJ red), . .), rooted at S. */
  method HouseSentence() returns (o: Outcome)
    ensures o == Built(HouseTree, 0)
  {
    HousePrepared();
    o := BuildGrid(HouseRows, BareLeaves, false);
  }

  /** A sentence whose only word hangs from NP, which hangs from the root S;
      nothing follows the word to change the parent. */
  const LostRows: seq<Row> := [Bare("Haus", "NN", "501"), Bare("#501", "NP", "500"), Bare("#500", "S", "0")]

  const LostReg := Reg([Inner("S", [], 2), Inner("NP", [], 1)], map[500 := 0, 501 := 1],
                       map[500 := 500, 501 := 500], Some(500), [500, 501], [])

  /** NP gets its word but never reaches S: the root stays childless. */
  const LostTree := [Inner("S", [], 2), Inner("NP", [Sub(2)], 1), Unary("NN", "Haus", 0)]

  lemma LostRegistered()
    ensures Registered(LostRows, 0, false) == Ok(LostReg)
  {
    Numbers();
    var r2 := Reg([Inner("S", [], 2)], map[500 := 0], map[500 := 500], Some(500), [500], []);
    assert LostRows[2].words[1..] == "500" && LostRows[1].words[1..] == "501";
    PlainStep(NoneRegistered, 2, LostRows[2], 500, 0);
    assert RowNode(LostRows[2], 2, false) == Inner("S", [], 2);
    assert [] + [Inner("S", [], 2)] == r2.arena && map[][500 := 0] == r2.nodes;
    assert map[][500 := 500] == r2.parents && [] + [500] == r2.ids;
    assert RegStep(NoneRegistered, 2, LostRows[2], false) == Ok(r2);
    assert Registered(LostRows, 2, false) == Ok(r2);
    PlainStep(r2, 1, LostRows[1], 501, 500);
    assert RowNode(LostRows[1], 1, false) == Inner("NP", [], 1);
    assert r2.arena + [Inner("NP", [], 1)] == LostReg.arena;
    assert r2.nodes[501 := 1] == LostReg.nodes && r2.parents[501 := 500] == LostReg.parents;
    assert r2.ids + [501] == LostReg.ids;
    assert RegStep(r2, 1, LostRows[1], false) == Ok(LostReg);
    assert Registered(LostRows, 1, false) == Ok(LostReg);
  }

  lemma LostPrepared()
    ensures Prepared(LostRows, BareLeaves, false) == Next(Stage(LostReg, 500, LostTree))
  {
    LostRegistered();
    Numbers();
    assert LostReg.nodes.Keys == {500, 501};
    assert |LostReg.nodes| == 2;
    var terms := LostRows[..1];
    assert TerminalRows(LostRows, LostReg) == terms;
    PlainPlace(LostReg.arena, LostReg, 500, 501, 0, LostRows[0]);
    AppendIs(LostReg.arena + [Unary("NN", "Haus", 0)], 1, Sub(2), LostTree);
    NextRow(terms, 0, LostReg, 500, TState(LostReg.arena, None));
  }

  /** The builder returns a tree whose root S has no children: the chunk that
      ends the sentence is attached to its ancestors only when a later row
      changes the parent, and no row follows. */
  method LostSentence() returns (o: Outcome)
    ensures o == Built(LostTree, 0) && o.arena[o.root].kids == []
  {
    LostPrepared();
    o := BuildGrid(LostRows, BareLeaves, false);
  }

  /** One more bare-word row of the terminal pass. */
  lemma NextRow(terms: seq<Row>, n: nat, reg: Reg, top: int, st: TState)
    requires n < |terms| && Handles(reg.nodes, |reg.arena|)
    requires Terminals(terms, n, reg, top, BareLeaves, false) == Next(st)
    ensures Terminals(terms, n + 1, reg, top, BareLeaves, false) ==
            TerminalStep(st, reg, top, n, terms[n], BareLeaves, false)
  {
  }

  /** The numbers the example sentences use, as int() reads them. */
  lemma Numbers()
    ensures ParseInt("0") == Some(0) && ParseInt("500") == Some(500) && ParseInt("501") == Some(501) &&
            ParseInt("502") == Some(502)
  {
    assert DigitsValue("5") == 5 && DigitsValue("50") == 50;
    assert "500"[..2] == "50" && "501"[..2] == "50" && "502"[..2] == "50" && "50"[..1] == "5";
  }
}
