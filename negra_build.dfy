/** The NEGRA tree builder as a whole: registration of the non-terminals, the
    terminal pass over the rows before them, and the replay of the recorded
    secondary edges as subtree copies.  Also the two token makers that feed it
    from a grid (bare words and Atoms). */
module NegraBuild {
  import opened Arena
  import opened PyStr
  import opened NegraColumns
  import opened NegraRegister
  import opened NegraTerminals
  import opened SubtreeCopy

  // ---------------------------------------------------------------------------
  // Up to the replay
  // ---------------------------------------------------------------------------

  /** Python's s[:-n] for n >= 0: everything but the last n items, and nothing
      at all when n is 0 or at least |s|. */
  function DropLast<T>(s: seq<T>, n: nat): seq<T>
  {
    if n == 0 || n >= |s| then [] else s[..|s| - n]
  }

  /** The rows the terminal pass reads: all but as many trailing rows as there
      are distinct registered numbers. */
  function TerminalRows(tokens: seq<Row>, reg: Reg): seq<Row>
  {
    DropLast(tokens, |reg.nodes|)
  }

  /** The builder's state before the replay: the registration, the root number
      and the arena after the terminal pass. */
  datatype Stage = Stage(reg: Reg, top: int, arena: seq<Node>)

  /** The builder up to the replay of the secondary edges: an exception of the
      registration escapes, no root gives None, and the terminal pass may stop
      the build. */
  function Prepared(tokens: seq<Row>, mode: LeafMode, secedgeCopy: bool): (r: Pass<Stage>)
    ensures r.Next? ==> TermInv(r.value.arena, r.value.reg, r.value.top)
    ensures r.Next? ==> Ok(r.value.reg) == Registered(tokens, 0, secedgeCopy)
    ensures r.Stop? ==> !r.outcome.Built?
  {
    match Registered(tokens, 0, secedgeCopy)
    case Fail(e) => Stop(Crash(e))
    case Ok(reg) =>
      if reg.top.None? then Stop(NoTree)
      else
        var top := reg.top.value;
        var terms := TerminalRows(tokens, reg);
        RegisteredValid(tokens, 0, secedgeCopy);
        match Terminals(terms, |terms|, reg, top, mode, secedgeCopy)
        case Stop(o) => Stop(o)
        case Next(st) =>
          TerminalsKeep(terms, |terms|, reg, top, mode, secedgeCopy);
          Next(Stage(reg, top, st.arena))
  }

  // ---------------------------------------------------------------------------
  // The replay of the recorded secondary edges
  // ---------------------------------------------------------------------------

  /** What the leaf builder reads from each row, by line number. */
  function Payloads(tokens: seq<Row>): (r: seq<Payload>)
    ensures |r| == |tokens| && forall i :: 0 <= i < |tokens| ==> r[i] == RowPayload(tokens[i])
  {
    seq(|tokens|, i requires 0 <= i < |tokens| => RowPayload(tokens[i]))
  }

  /** How the NEGRA copy helper copies a subtree for recorded edge c: the new
      root takes c's label, leaves are rebuilt from the row of their node's
      line, and a line with no row would raise IndexError. */
  function SpecFor(c: SecCopy, mode: LeafMode, payloads: seq<Payload>): CopySpec
  {
    CopySpec(c.edgeLabel, mode, payloads, false, IndexError)
  }

  /** Recorded edge i turned arena a into r: its target number is registered,
      and r is a with a copy of the edge's node appended to the target's node. */
  ghost predicate CopyStep(reg: Reg, mode: LeafMode, payloads: seq<Payload>, a: seq<Node>, r: seq<Node>, i: nat)
    requires i < |reg.copies|
  {
    var c := reg.copies[i];
    c.word in reg.nodes && c.target.Some? && c.target.value in reg.nodes &&
    CopiedInto(a, r, reg.nodes[c.word], reg.nodes[c.target.value], SpecFor(c, mode, payloads))
  }

  /** steps[0], ..., steps[n] are the arenas before and after each of the first
      n recorded edges. */
  ghost predicate Replays(reg: Reg, mode: LeafMode, payloads: seq<Payload>, steps: seq<seq<Node>>, n: nat)
  {
    n <= |reg.copies| && |steps| == n + 1 &&
    forall i :: 0 <= i < n ==> CopyStep(reg, mode, payloads, steps[i], steps[i + 1], i)
  }

  /** How recorded edge i stops the build on arena a: an unknown target gives
      None, a subtree with a cycle keeps the copy loop running forever, and
      otherwise only a failing leaf can stop it. */
  ghost predicate CopyStopped(reg: Reg, a: seq<Node>, i: nat, o: Outcome)
    requires i < |reg.copies| && Handles(reg.nodes, |a|) && reg.copies[i].word in reg.nodes
  {
    var c := reg.copies[i];
    if c.target.None? || c.target.value !in reg.nodes then o == NoTree
    else if !Finite(a, reg.nodes[c.word], |a| + 1) then o == Hang
    else o == Crash(IndexError) || o == Crash(KeyError)
  }

  /** A copy leaves every node that was nobody's child still nobody's child. */
  lemma CopyKeepsUnreferenced(a: seq<Node>, r: seq<Node>, src: nat, target: nat, spec: CopySpec, h: nat)
    requires CopiedInto(a, r, src, target, spec) && h < |a| && Unreferenced(a, h)
    ensures Unreferenced(r, h)
  {
    var origin :| Mirror(a, r, origin, spec, src);
    forall p, i | 0 <= p < |r| && 0 <= i < |r[p].kids|
      ensures r[p].kids[i] != Sub(h)
    {
      if p >= |a| {
        assert MirrorNode(a, r, origin, spec, p);
        assert MirrorKid(a, r, origin, spec, p, i);
      } else if !(p == target && i == |a[p].kids|) {
        assert r[p].kids[i] == a[p].kids[i];
      }
    }
  }

  /** The replay loop: each recorded edge whose target is registered has its
      node copied under the target's node, in recording order. */
  method Replay(a: seq<Node>, reg: Reg, mode: LeafMode, payloads: seq<Payload>) returns (r: Pass<seq<Node>>)
    requires Closed(a) && Unshared(a) && Handles(reg.nodes, |a|)
    requires forall i :: 0 <= i < |reg.copies| ==> reg.copies[i].word in reg.nodes
    ensures r.Next? ==> exists steps :: Replays(reg, mode, payloads, steps, |reg.copies|) &&
                                        steps[0] == a && steps[|reg.copies|] == r.value
    ensures r.Stop? ==> exists steps, i: nat :: Replays(reg, mode, payloads, steps, i) && i < |reg.copies| &&
                                           steps[0] == a && Handles(reg.nodes, |steps[i]|) &&
                                           CopyStopped(reg, steps[i], i, r.outcome)
    ensures reg.copies == [] ==> r == Next(a)
    ensures r.Next? ==> Closed(r.value) && Unshared(r.value) && |a| <= |r.value|
    ensures r.Next? ==> forall h :: 0 <= h < |a| && Unreferenced(a, h) ==> Unreferenced(r.value, h)
  {
    var arena := a;
    ghost var steps := [a];
    for i := 0 to |reg.copies|
      invariant Replays(reg, mode, payloads, steps, i) && steps[0] == a && steps[i] == arena
      invariant Closed(arena) && Unshared(arena) && |a| <= |arena| && Handles(reg.nodes, |arena|)
      invariant forall h :: 0 <= h < |a| && Unreferenced(a, h) ==> Unreferenced(arena, h)
    {
      var c := reg.copies[i];
      if c.target.None? || c.target.value !in reg.nodes {
        return Stop(NoTree);
      }
      var t := c.target.value;
      assert reg.nodes[t] < |arena|;
      var src, target := reg.nodes[c.word], reg.nodes[t];
      if !Finite(arena, src, |arena| + 1) {
        return Stop(Hang);
      }
      var copied := CopySubtree(arena, src, target, SpecFor(c, mode, payloads), |arena| + 1);
      if copied.Fail? {
        return Stop(Crash(copied.err));
      }
      forall h | 0 <= h < |a| && Unreferenced(a, h)
        ensures Unreferenced(copied.value, h)
      {
        CopyKeepsUnreferenced(arena, copied.value, src, target, SpecFor(c, mode, payloads), h);
      }
      steps := steps + [copied.value];
      arena := copied.value;
    }
    return Next(arena);
  }

  // ---------------------------------------------------------------------------
  // The whole builder
  // ---------------------------------------------------------------------------

  /** _get_parsed_words_helper: the tree of one sentence's rows, None for a
      sentence it rejects, or the exception or endless loop it runs into.  The
      tree is rooted at the root number's node, every child handle names a node,
      no node is a child twice and the root is nobody's child. */
  method BuildGrid(tokens: seq<Row>, mode: LeafMode, secedgeCopy: bool) returns (o: Outcome)
    ensures Prepared(tokens, mode, secedgeCopy).Stop? ==> o == Prepared(tokens, mode, secedgeCopy).outcome
    ensures Prepared(tokens, mode, secedgeCopy).Next? ==>
              var s := Prepared(tokens, mode, secedgeCopy).value;
              (s.reg.copies == [] ==> o == Built(s.arena, s.reg.nodes[s.top])) &&
              (o.Built? ==> o.root == s.reg.nodes[s.top] &&
                            exists steps :: Replays(s.reg, mode, Payloads(tokens), steps, |s.reg.copies|) &&
                                            steps[0] == s.arena && steps[|s.reg.copies|] == o.arena) &&
              (!o.Built? ==> exists steps, i: nat :: Replays(s.reg, mode, Payloads(tokens), steps, i) &&
                                                i < |s.reg.copies| && steps[0] == s.arena &&
                                                Handles(s.reg.nodes, |steps[i]|) &&
                                                CopyStopped(s.reg, steps[i], i, o))
    ensures o.Built? ==> o.root < |o.arena| && Closed(o.arena) && Unshared(o.arena) && Unreferenced(o.arena, o.root)
  {
    var reg := Register(tokens, secedgeCopy);
    if reg.Fail? {
      return Crash(reg.err);
    }
    if reg.value.top.None? {
      return NoTree;
    }
    var top := reg.value.top.value;
    var terms := TerminalRows(tokens, reg.value);
    RegisteredValid(tokens, 0, secedgeCopy);
    var st := AttachTerminals(terms, reg.value, top, mode, secedgeCopy);
    if st.Stop? {
      return st.outcome;
    }
    TerminalsKeep(terms, |terms|, reg.value, top, mode, secedgeCopy);
    var root := reg.value.nodes[top];
    var replayed := Replay(st.value.arena, reg.value, mode, Payloads(tokens));
    if replayed.Stop? {
      return replayed.outcome;
    }
    return Built(replayed.value, root);
  }

  // ---------------------------------------------------------------------------
  // From a grid to the builder
  // ---------------------------------------------------------------------------

  /** An optional column of the Atom reader: present when the corpus declares it. */
  function Optional(grid: seq<seq<string>>, m: map<string, nat>, c: string, mode: LeafMode, k: nat): Option<string>
    requires k < |grid|
  {
    if mode == AtomLeaves && c in m then Some(Column(grid, m[c])[k]) else None
  }

  /** The token dicts the two readers hand to the builder: words, tag and parent
      for the bare-word reader; morphology too, plus lemma, edge, secondary edge
      and comment when declared, for the Atom reader.  A mandatory column the
      corpus does not declare raises KeyError on the column map. */
  function GridTokens(grid: seq<seq<string>>, cols: seq<string>, mode: LeafMode): (r: Result<seq<Row>>)
    ensures r.Fail? ==> r.err == KeyError
    ensures r.Ok? ==> |r.value| == |grid|
    ensures r.Ok? ==> forall k :: 0 <= k < |grid| ==>
                        (r.value[k].morph.Some? <==> mode == AtomLeaves) &&
                        (r.value[k].lemmaForm.Some? <==> mode == AtomLeaves && Lemma in ColMap(cols)) &&
                        (r.value[k].edge.Some? <==> mode == AtomLeaves && EdgeColumn in ColMap(cols)) &&
                        (r.value[k].secedge.Some? <==> mode == AtomLeaves && Secedge in ColMap(cols)) &&
                        (r.value[k].comment.Some? <==> mode == AtomLeaves && Comment in ColMap(cols))
  {
    var m := ColMap(cols);
    if Words !in m || Pos !in m || ParentColumn !in m || (mode == AtomLeaves && Morph !in m) then Fail(KeyError)
    else
      Ok(seq(|grid|, k requires 0 <= k < |grid| =>
               Row(Column(grid, m[Words])[k], Column(grid, m[Pos])[k], Column(grid, m[ParentColumn])[k],
                   if mode == AtomLeaves then Some(Column(grid, m[Morph])[k]) else None,
                   Optional(grid, m, Lemma, mode, k), Optional(grid, m, EdgeColumn, mode, k),
                   Optional(grid, m, Secedge, mode, k), Optional(grid, m, Comment, mode, k))))
  }

  /** The tokens exist exactly when the corpus declares the mandatory columns,
      and each token reads its words, tag and parent from its own grid row, at
      the last position the column list gives each of them ('' past the row's
      end). */
  lemma GridTokensRead(grid: seq<seq<string>>, cols: seq<string>, mode: LeafMode, k: nat, iw: nat, ip: nat, iq: nat)
    requires k < |grid|
    requires iw < |cols| && cols[iw] == Words && forall j :: iw < j < |cols| ==> cols[j] != Words
    requires ip < |cols| && cols[ip] == Pos && forall j :: ip < j < |cols| ==> cols[j] != Pos
    requires iq < |cols| && cols[iq] == ParentColumn && forall j :: iq < j < |cols| ==> cols[j] != ParentColumn
    ensures GridTokens(grid, cols, mode).Ok? <==> mode == BareLeaves || Morph in cols
    ensures GridTokens(grid, cols, mode).Ok? ==>
              var t := GridTokens(grid, cols, mode).value[k];
              t.words == Cell(grid[k], iw) && t.pos == Cell(grid[k], ip) && t.parent == Cell(grid[k], iq)
  {
    ColMapIsLastPosition(cols, Words, iw);
    ColMapIsLastPosition(cols, Pos, ip);
    ColMapIsLastPosition(cols, ParentColumn, iq);
    ColMapKeys(cols, Morph);
    var r := GridTokens(grid, cols, mode);
    if r.Ok? {
      var m := ColMap(cols);
      assert r.value[k].words == Column(grid, m[Words])[k] && r.value[k].pos == Column(grid, m[Pos])[k];
      assert r.value[k].parent == Column(grid, m[ParentColumn])[k];
    }
  }

  /** In the Atom reader, the morphology column and each declared optional
      column give the token the value of its own grid row, read at the last
      position the column list gives that column ('' past the row's end). */
  lemma GridTokensAnnotated(grid: seq<seq<string>>, cols: seq<string>, k: nat, c: string, i: nat)
    requires k < |grid|
    requires i < |cols| && cols[i] == c && forall j :: i < j < |cols| ==> cols[j] != c
    ensures GridTokens(grid, cols, AtomLeaves).Ok? ==>
              var t := GridTokens(grid, cols, AtomLeaves).value[k];
              (c == Morph ==> t.morph == Some(Cell(grid[k], i))) &&
              (c == Lemma ==> t.lemmaForm == Some(Cell(grid[k], i))) &&
              (c == EdgeColumn ==> t.edge == Some(Cell(grid[k], i))) &&
              (c == Secedge ==> t.secedge == Some(Cell(grid[k], i))) &&
              (c == Comment ==> t.comment == Some(Cell(grid[k], i)))
  {
    ColMapIsLastPosition(cols, c, i);
  }

  /** _get_parsed_words (bare words, no secondary-edge copies) and
      _get_parsed_words_morph (Atoms, copies as asked) on one grid. */
  method ParseGrid(grid: seq<seq<string>>, cols: seq<string>, mode: LeafMode, secedgeCopy: bool) returns (o: Outcome)
    ensures GridTokens(grid, cols, mode).Fail? ==> o == Crash(KeyError)
    ensures GridTokens(grid, cols, mode).Ok? ==>
              var p := Prepared(GridTokens(grid, cols, mode).value, mode, mode == AtomLeaves && secedgeCopy);
              (p.Stop? ==> o == p.outcome) &&
              (p.Next? && p.value.reg.copies == [] ==> o == Built(p.value.arena, p.value.reg.nodes[p.value.top])) &&
              (p.Next? && o.Built? ==>
                 o.root == p.value.reg.nodes[p.value.top] &&
                 exists steps :: Replays(p.value.reg, mode, Payloads(GridTokens(grid, cols, mode).value), steps,
                                         |p.value.reg.copies|) &&
                                 steps[0] == p.value.arena && steps[|p.value.reg.copies|] == o.arena) &&
              (p.Next? && !o.Built? ==>
                 exists steps, i: nat :: Replays(p.value.reg, mode, Payloads(GridTokens(grid, cols, mode).value), steps, i) &&
                                         i < |p.value.reg.copies| && steps[0] == p.value.arena &&
                                         Handles(p.value.reg.nodes, |steps[i]|) &&
                                         CopyStopped(p.value.reg, steps[i], i, o))
    ensures o.Built? ==> o.root < |o.arena| && Closed(o.arena) && Unshared(o.arena) && Unreferenced(o.arena, o.root)
  {
    var tokens := GridTokens(grid, cols, mode);
    if tokens.Fail? {
      return Crash(tokens.err);
    }
    o := BuildGrid(tokens.value, mode, mode == AtomLeaves && secedgeCopy);
  }
}
