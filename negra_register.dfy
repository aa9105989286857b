/** First pass of the NEGRA tree builder: the non-terminal rows ('#'-prefixed
    words) are registered from the last row to the first.  Each becomes an empty
    node stored under its number in `nodes`, its parent number in `parents`; the
    first one seen with parent 0 is the root, and a later parent 0 means the
    root.  With secondary-edge copying on, a non-terminal's secondary edge is
    recorded for replay instead of stored on the node. */
module NegraRegister {
  import opened Arena
  import opened PyStr

  /** One grid row as the tree builder sees it: the token dict, whose three
      mandatory columns are always present and whose other columns are present
      only when the corpus declares them. */
  datatype Row = Row(words: string, pos: string, parent: string, morph: Option<string>,
                     lemmaForm: Option<string>, edge: Option<string>, secedge: Option<string>,
                     comment: Option<string>)

  predicate IsNonterminal(row: Row)
  {
    |row.words| > 0 && row.words[0] == '#'
  }

  /** int(words[1:]) of a non-terminal row. */
  function IdOf(row: Row): Option<int>
    requires IsNonterminal(row)
  {
    ParseInt(row.words[1..])
  }

  /** int(parent) of a row. */
  function ParentOf(row: Row): Option<int>
  {
    ParseInt(row.parent)
  }

  /** The row has a non-empty secondary edge label. */
  predicate HasSecedge(row: Row)
  {
    row.secedge.Some? && row.secedge.value != ""
  }

  /** A recorded secondary edge: copy node `word` under `target` with edge
      `label`; the target is None when it named the root before any root was
      seen. */
  datatype SecCopy = SecCopy(word: int, edgeLabel: string, target: Option<int>)

  /** The builder's state after registration: the arena of empty non-terminal
      nodes, `nodes` (number to handle), `parents` (number to parent number),
      the root number, the number each handle was registered under, and the
      recorded secondary edges in registration order. */
  datatype Reg = Reg(arena: seq<Node>, nodes: map<int, nat>, parents: map<int, int>,
                     top: Option<int>, ids: seq<int>, copies: seq<SecCopy>)

  const NoneRegistered := Reg([], map[], map[], None, [], [])

  /** The empty node a non-terminal row registers. */
  function RowNode(row: Row, lineno: nat, secedgeCopy: bool): Node
  {
    Node(row.pos, [], lineno, row.edge,
         if secedgeCopy then None else row.secedge,
         if secedgeCopy then None else row.comment)
  }

  /** What makes registering a non-terminal row raise: a number that int()
      rejects (ValueError), or, when copying secondary edges, a secondary edge
      whose comment is missing or empty (AssertionError) or not a number. */
  predicate RowOk(row: Row, secedgeCopy: bool)
    requires IsNonterminal(row)
  {
    IdOf(row).Some? && ParentOf(row).Some? &&
    (secedgeCopy && HasSecedge(row) ==>
       row.comment.Some? && row.comment.value != "" && ParseInt(row.comment.value).Some?)
  }

  /** Registers one non-terminal row. */
  function RegStep(st: Reg, lineno: nat, row: Row, secedgeCopy: bool): (r: Result<Reg>)
    requires IsNonterminal(row)
  {
    match (IdOf(row), ParentOf(row))
    case (None, _) => Fail(ValueError)
    case (_, None) => Fail(ValueError)
    case (Some(w), Some(p)) =>
      var top := if st.top.None? && p == 0 then Some(w) else st.top;
      var parent := if p == 0 then top.value else p;
      var st' := st.(arena := st.arena + [RowNode(row, lineno, secedgeCopy)],
                     nodes := st.nodes[w := |st.arena|], parents := st.parents[w := parent],
                     top := top, ids := st.ids + [w]);
      if !(secedgeCopy && HasSecedge(row)) then Ok(st')
      else if !(row.comment.Some? && row.comment.value != "") then Fail(AssertionError)
      else
        match ParseInt(row.comment.value)
        case None => Fail(ValueError)
        case Some(t) =>
          Ok(st'.(copies := st.copies + [SecCopy(w, row.secedge.value, if t == 0 then top else Some(t))]))
  }

  /** The state after registering the non-terminal rows from the last one down
      to row k. */
  function Registered(tokens: seq<Row>, k: nat, secedgeCopy: bool): Result<Reg>
    requires k <= |tokens|
    decreases |tokens| - k
  {
    if k == |tokens| then Ok(NoneRegistered)
    else
      match Registered(tokens, k + 1, secedgeCopy)
      case Fail(e) => Fail(e)
      case Ok(st) => if IsNonterminal(tokens[k]) then RegStep(st, k, tokens[k], secedgeCopy) else Ok(st)
  }

  /** The registration loop over the rows in reverse order. */
  method Register(tokens: seq<Row>, secedgeCopy: bool) returns (r: Result<Reg>)
    ensures r == Registered(tokens, 0, secedgeCopy)
  {
    var arena: seq<Node> := [];
    var nodes: map<int, nat> := map[];
    var parents: map<int, int> := map[];
    var top: Option<int> := None;
    var ids: seq<int> := [];
    var copies: seq<SecCopy> := [];
    var k := |tokens|;
    while k > 0
      invariant 0 <= k <= |tokens|
      invariant Registered(tokens, k, secedgeCopy) == Ok(Reg(arena, nodes, parents, top, ids, copies))
    {
      k := k - 1;
      var row := tokens[k];
      if IsNonterminal(row) {
        assert Registered(tokens, k, secedgeCopy) == RegStep(Reg(arena, nodes, parents, top, ids, copies), k, row, secedgeCopy);
        var word := ParseInt(row.words[1..]);
        var parent := ParseInt(row.parent);
        if word.None? || parent.None? {
          FailureStays(tokens, 0, k, secedgeCopy);
          return Fail(ValueError);
        }
        var w, p := word.value, parent.value;
        if top.None? && p == 0 {
          top := Some(w);
        }
        if top.Some? && p == 0 {
          p := top.value;
        }
        nodes := nodes[w := |arena|];
        arena := arena + [RowNode(row, k, secedgeCopy)];
        parents := parents[w := p];
        ids := ids + [w];
        if secedgeCopy && HasSecedge(row) {
          if !(row.comment.Some? && row.comment.value != "") {
            FailureStays(tokens, 0, k, secedgeCopy);
            return Fail(AssertionError);
          }
          var t := ParseInt(row.comment.value);
          if t.None? {
            FailureStays(tokens, 0, k, secedgeCopy);
            return Fail(ValueError);
          }
          var target := if t.value == 0 then top else Some(t.value);
          copies := copies + [SecCopy(w, row.secedge.value, target)];
        }
      }
    }
    return Ok(Reg(arena, nodes, parents, top, ids, copies));
  }

  /** An error raised at row k is the error of the whole registration. */
  lemma {:induction false} FailureStays(tokens: seq<Row>, j: nat, k: nat, secedgeCopy: bool)
    requires j <= k <= |tokens| && Registered(tokens, k, secedgeCopy).Fail?
    ensures Registered(tokens, j, secedgeCopy) == Registered(tokens, k, secedgeCopy)
    decreases k - j
  {
    if j < k {
      FailureStays(tokens, j + 1, k, secedgeCopy);
    }
  }

  // ---------------------------------------------------------------------------
  // What registration establishes
  // ---------------------------------------------------------------------------

  /** Registration raises exactly when some non-terminal row is malformed. */
  lemma {:induction false} RegisteredOk(tokens: seq<Row>, k: nat, secedgeCopy: bool)
    requires k <= |tokens|
    ensures Registered(tokens, k, secedgeCopy).Ok? <==>
            forall j :: k <= j < |tokens| && IsNonterminal(tokens[j]) ==> RowOk(tokens[j], secedgeCopy)
    decreases |tokens| - k
  {
    if k < |tokens| {
      RegisteredOk(tokens, k + 1, secedgeCopy);
    }
  }

  /** There is no root exactly when no non-terminal row has parent 0. */
  lemma {:induction false} RootAbsent(tokens: seq<Row>, k: nat, secedgeCopy: bool)
    requires k <= |tokens| && Registered(tokens, k, secedgeCopy).Ok?
    ensures Registered(tokens, k, secedgeCopy).value.top.None? <==>
            forall j :: k <= j < |tokens| && IsNonterminal(tokens[j]) ==> ParentOf(tokens[j]) != Some(0)
    decreases |tokens| - k
  {
    if k < |tokens| {
      RootAbsent(tokens, k + 1, secedgeCopy);
    }
  }

  /** The root is the number of the last non-terminal row with parent 0. */
  lemma {:induction false} RootIsLastZeroRow(tokens: seq<Row>, k: nat, secedgeCopy: bool)
    requires k <= |tokens| && Registered(tokens, k, secedgeCopy).Ok?
    requires Registered(tokens, k, secedgeCopy).value.top.Some?
    ensures exists j :: k <= j < |tokens| && IsNonterminal(tokens[j]) &&
                        ParentOf(tokens[j]) == Some(0) &&
                        IdOf(tokens[j]) == Registered(tokens, k, secedgeCopy).value.top &&
                        forall j' :: j < j' < |tokens| && IsNonterminal(tokens[j']) ==>
                                       ParentOf(tokens[j']) != Some(0)
    decreases |tokens| - k
  {
    var st0 := Registered(tokens, k + 1, secedgeCopy).value;
    if st0.top.Some? {
      RootIsLastZeroRow(tokens, k + 1, secedgeCopy);
    } else {
      RootAbsent(tokens, k + 1, secedgeCopy);
      assert IsNonterminal(tokens[k]) && ParentOf(tokens[k]) == Some(0);
    }
  }

  /** The last-registered (topmost in the grid) row of each number is the one
      `nodes` keeps: its node is the row's empty node, and its parent is the
      row's parent, with 0 meaning the root. */
  lemma {:induction false} RegisteredRow(tokens: seq<Row>, k: nat, secedgeCopy: bool, j: nat)
    requires k <= j < |tokens| && IsNonterminal(tokens[j]) && Registered(tokens, k, secedgeCopy).Ok?
    requires forall j' :: k <= j' < j && IsNonterminal(tokens[j']) ==> IdOf(tokens[j']) != IdOf(tokens[j])
    ensures IdOf(tokens[j]).Some? && ParentOf(tokens[j]).Some?
    ensures var st := Registered(tokens, k, secedgeCopy).value;
            var w := IdOf(tokens[j]).value;
            var p := ParentOf(tokens[j]).value;
            w in st.nodes && w in st.parents && st.nodes[w] < |st.arena| &&
            st.arena[st.nodes[w]] == RowNode(tokens[j], j, secedgeCopy) &&
            (p == 0 ==> st.top.Some? && st.parents[w] == st.top.value) &&
            (p != 0 ==> st.parents[w] == p)
    decreases |tokens| - k
  {
    if k < j {
      RegisteredRow(tokens, k + 1, secedgeCopy, j);
    }
  }

  /** The registered numbers are exactly the numbers of the non-terminal rows. */
  lemma {:induction false} RegisteredKeys(tokens: seq<Row>, k: nat, secedgeCopy: bool, w: int)
    requires k <= |tokens| && Registered(tokens, k, secedgeCopy).Ok?
    ensures w in Registered(tokens, k, secedgeCopy).value.nodes <==>
            exists j :: k <= j < |tokens| && IsNonterminal(tokens[j]) && IdOf(tokens[j]) == Some(w)
    decreases |tokens| - k
  {
    if k < |tokens| {
      RegisteredKeys(tokens, k + 1, secedgeCopy, w);
    }
  }

  /** Without secondary-edge copying nothing is recorded for replay. */
  lemma {:induction false} NothingRecordedWithoutCopying(tokens: seq<Row>, k: nat)
    requires k <= |tokens| && Registered(tokens, k, false).Ok?
    ensures Registered(tokens, k, false).value.copies == []
    decreases |tokens| - k
  {
    if k < |tokens| {
      NothingRecordedWithoutCopying(tokens, k + 1);
    }
  }

  /** The rows at or after k that record a secondary edge when copying is on:
      the non-terminal rows with a non-empty secondary edge, from the last one
      up, the order in which registration meets them. */
  function SecedgeRows(tokens: seq<Row>, k: nat): (r: seq<nat>)
    requires k <= |tokens|
    ensures forall j :: j in r <==> k <= j < |tokens| && IsNonterminal(tokens[j]) && HasSecedge(tokens[j])
    ensures forall a, b :: 0 <= a < b < |r| ==> r[a] > r[b]
    decreases |tokens| - k
  {
    if k == |tokens| then []
    else
      var rest := SecedgeRows(tokens, k + 1);
      assert forall a :: 0 <= a < |rest| ==> rest[a] in rest && rest[a] > k;
      rest + (if IsNonterminal(tokens[k]) && HasSecedge(tokens[k]) then [k] else [])
  }

  /** Some non-terminal row at or after j has parent 0, so the root is known
      when row j is registered. */
  ghost predicate RootSeenBy(tokens: seq<Row>, j: nat)
  {
    exists j' :: j <= j' < |tokens| && IsNonterminal(tokens[j']) && ParentOf(tokens[j']) == Some(0)
  }

  /** The copy row j records: its own number and label, and the number its
      comment names, where 0 names the root if one has been seen and nothing
      otherwise. */
  ghost function CopyFor(tokens: seq<Row>, j: nat, root: Option<int>): SecCopy
    requires j < |tokens| && IsNonterminal(tokens[j]) && HasSecedge(tokens[j]) && RowOk(tokens[j], true)
  {
    var t := ParseInt(tokens[j].comment.value).value;
    SecCopy(IdOf(tokens[j]).value, tokens[j].secedge.value,
            if t != 0 then Some(t) else if RootSeenBy(tokens, j) then root else None)
  }

  /** With copying on, the recorded copies are exactly one per non-terminal row
      with a secondary edge, in reverse row order, each naming its row's number,
      label and comment target. */
  lemma {:induction false} RegisteredCopies(tokens: seq<Row>, k: nat)
    requires k <= |tokens| && Registered(tokens, k, true).Ok?
    ensures var st := Registered(tokens, k, true).value;
            var rows := SecedgeRows(tokens, k);
            |st.copies| == |rows| &&
            forall i :: 0 <= i < |rows| ==>
              rows[i] in rows && RowOk(tokens[rows[i]], true) &&
              st.copies[i] == CopyFor(tokens, rows[i], st.top)
    decreases |tokens| - k
  {
    if k < |tokens| {
      RegisteredOk(tokens, k, true);
      RegisteredCopies(tokens, k + 1);
      RootAbsent(tokens, k, true);
      RootAbsent(tokens, k + 1, true);
      var st0 := Registered(tokens, k + 1, true).value;
      var st := Registered(tokens, k, true).value;
      var rows0 := SecedgeRows(tokens, k + 1);
      var rows := SecedgeRows(tokens, k);
      forall i | 0 <= i < |rows0|
        ensures st.copies[i] == CopyFor(tokens, rows0[i], st.top)
      {
        assert rows0[i] in rows0;
        if st0.top.None? {
          assert !RootSeenBy(tokens, rows0[i]);
        }
      }
      if IsNonterminal(tokens[k]) && HasSecedge(tokens[k]) {
        assert rows == rows0 + [k];
        if st.top.None? {
          assert !RootSeenBy(tokens, k);
        } else {
          assert RootSeenBy(tokens, k);
        }
      }
    }
  }

  /** The shape of a registration state that the later passes rely on: handles
      and numbers correspond, every registered node is still childless, the root
      and every recorded copy source are registered. */
  ghost predicate RegValid(st: Reg)
  {
    |st.ids| == |st.arena| &&
    st.nodes.Keys == st.parents.Keys &&
    (forall w :: w in st.nodes ==> st.nodes[w] < |st.arena|) &&
    (forall w :: w in st.nodes ==> st.ids[st.nodes[w]] == w) &&
    (forall h :: 0 <= h < |st.arena| ==> st.arena[h].kids == []) &&
    (st.top.Some? ==> st.top.value in st.nodes) &&
    (forall i :: 0 <= i < |st.copies| ==> st.copies[i].word in st.nodes)
  }

  lemma RegStepValid(st: Reg, lineno: nat, row: Row, secedgeCopy: bool)
    requires IsNonterminal(row) && RegValid(st) && RegStep(st, lineno, row, secedgeCopy).Ok?
    ensures RegValid(RegStep(st, lineno, row, secedgeCopy).value)
  {
  }

  lemma {:induction false} RegisteredValid(tokens: seq<Row>, k: nat, secedgeCopy: bool)
    requires k <= |tokens| && Registered(tokens, k, secedgeCopy).Ok?
    ensures RegValid(Registered(tokens, k, secedgeCopy).value)
    decreases |tokens| - k
  {
    if k < |tokens| {
      RegisteredValid(tokens, k + 1, secedgeCopy);
      if IsNonterminal(tokens[k]) {
        RegStepValid(Registered(tokens, k + 1, secedgeCopy).value, k, tokens[k], secedgeCopy);
      }
    }
  }
}
