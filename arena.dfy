/** Shared tree representation of both treebank readers.

    A Python tree node is a mutable object that other nodes hold by reference;
    here every node lives in an arena (a sequence of node records) and is named
    by its index, its handle.  A child of a node is either the handle of another
    node or a leaf value. */
module Arena {

  datatype Option<T> = None | Some(value: T)

  /** The Python exceptions that a malformed sentence can raise inside the core. */
  datatype Error = KeyError | ValueError | IndexError | AssertionError | NameError

  datatype Result<T> = Ok(value: T) | Fail(err: Error)

  /** What a tree builder gives back for one sentence: the tree (its arena and
      root handle), None for a sentence it rejects, an escaping exception, or no
      answer at all because a loop of the source never ends. */
  datatype Outcome = Built(arena: seq<Node>, root: nat) | NoTree | Crash(err: Error) | Hang

  /** A stage of a builder either passes its state on or stops with an outcome. */
  datatype Pass<T> = Next(value: T) | Stop(outcome: Outcome)

  /** Which leaf builder a reader passes to its tree builder: the bare word
      (parsed_sents) or an annotated Atom (parsed_sents_morph). */
  datatype LeafMode = BareLeaves | AtomLeaves

  /** The annotated leaf: a word that also carries its tag, morphology and the
      handle of the unary node above it (a non-owning reference). */
  datatype Atom = Atom(word: string, tag: string, morph: string, lemmaForm: Option<string>,
                       edge: Option<string>, secedge: Option<string>, comment: Option<string>,
                       gridLineno: int, parent: nat)

  datatype Leaf = Word(text: string) | AtomLeaf(atom: Atom)

  datatype Item = Sub(handle: nat) | Tip(leaf: Leaf)

  /** A tree node: its label (part of speech or category), its children in
      left-to-right order, the grid line it came from and its edge annotations. */
  datatype Node = Node(tag: string, kids: seq<Item>, lineno: int, edge: Option<string>,
                       secedge: Option<string>, comment: Option<string>)

  /** What a leaf builder reads from one token (a grid row or a TIGER terminal). */
  datatype Payload = Payload(word: string, tag: string, morph: Option<string>, lemmaForm: Option<string>,
                             edge: Option<string>, secedge: Option<string>, comment: Option<string>)

  // ---------------------------------------------------------------------------
  // Leaves
  // ---------------------------------------------------------------------------

  /** The text a leaf stands for (str() of a bare word or of an Atom). */
  function LeafText(l: Leaf): string
  {
    match l
    case Word(t) => t
    case AtomLeaf(a) => a.word
  }

  /** The leaf builders: the bare builder keeps only the word; the annotated one
      builds an Atom and fails with KeyError when the token has no morphology. */
  function MakeLeaf(mode: LeafMode, p: Payload, lineno: int, parent: nat): (r: Option<Leaf>)
    ensures r.Some? <==> (mode == BareLeaves || p.morph.Some?)
    ensures r.Some? ==> LeafText(r.value) == p.word
    ensures r.Some? ==> (r.value.AtomLeaf? <==> mode == AtomLeaves)
    ensures r.Some? && r.value.AtomLeaf? ==>
              r.value.atom.parent == parent && r.value.atom.gridLineno == lineno &&
              r.value.atom.tag == p.tag && r.value.atom.morph == p.morph.value &&
              r.value.atom.lemmaForm == p.lemmaForm && r.value.atom.edge == p.edge &&
              r.value.atom.secedge == p.secedge && r.value.atom.comment == p.comment
  {
    match mode
    case BareLeaves => Some(Word(p.word))
    case AtomLeaves =>
      if p.morph.None? then None
      else Some(AtomLeaf(Atom(p.word, p.tag, p.morph.value, p.lemmaForm, p.edge, p.secedge,
                              p.comment, lineno, parent)))
  }

  /** Python equality of two leaves: words compare as strings, an Atom equals
      another Atom with the same word whatever its annotation, and an Atom never
      equals a bare string. */
  predicate LeafEq(x: Leaf, y: Leaf)
  {
    match (x, y)
    case (Word(s), Word(t)) => s == t
    case (AtomLeaf(a), AtomLeaf(b)) => a.word == b.word
    case _ => false
  }

  lemma LeafEqIsEquivalence(x: Leaf, y: Leaf, z: Leaf)
    ensures LeafEq(x, x)
    ensures LeafEq(x, y) ==> LeafEq(y, x)
    ensures LeafEq(x, y) && LeafEq(y, z) ==> LeafEq(x, z)
    ensures LeafEq(x, y) ==> LeafText(x) == LeafText(y)
  {
  }

  /** Two Atoms that differ only in their annotation are equal. */
  lemma AtomEqualityIgnoresAnnotation(a: Atom, b: Atom)
    requires a.word == b.word
    ensures LeafEq(AtomLeaf(a), AtomLeaf(b))
    ensures !LeafEq(AtomLeaf(a), Word(a.word))
  {
  }

  /** len(atom): the length of its word. */
  function AtomLen(a: Atom): (n: nat)
    ensures n == |LeafText(AtomLeaf(a))|
  {
    |a.word|
  }

  /** s[k] on a Python string: indices from -len(s) to len(s) - 1 name a
      character, negative ones counting from the end; any other index raises
      IndexError. */
  function PyIndex(s: string, k: int): (r: Result<char>)
    ensures r.Ok? <==> -|s| <= k < |s|
    ensures r.Fail? ==> r.err == IndexError
    ensures 0 <= k < |s| ==> r.value == s[k]
  {
    if 0 <= k < |s| then Ok(s[k])
    else if -|s| <= k < 0 then Ok(s[|s| + k])
    else Fail(IndexError)
  }

  /** A negative index names the same character as its counterpart counted
      from the start. */
  lemma {:induction false} PyIndexFromEnd(s: string, k: int)
    requires 0 < k <= |s|
    ensures PyIndex(s, -k) == PyIndex(s, |s| - k)
  {
  }

  /** atom[k] delegates to the word, so an Atom indexes exactly like the bare
      string it stands for, IndexError included. */
  function AtomAt(a: Atom, k: int): (r: Result<char>)
    ensures r.Fail? <==> !(-(AtomLen(a) as int) <= k < AtomLen(a))
    ensures r.Fail? ==> r.err == IndexError
    ensures r == PyIndex(LeafText(AtomLeaf(a)), k) == PyIndex(LeafText(Word(a.word)), k)
  {
    PyIndex(a.word, k)
  }

  // ---------------------------------------------------------------------------
  // Shape of an arena
  // ---------------------------------------------------------------------------

  /** Every child handle names a node of the arena. */
  ghost predicate Closed(a: seq<Node>)
  {
    forall p, i :: 0 <= p < |a| && 0 <= i < |a[p].kids| && a[p].kids[i].Sub? ==>
      a[p].kids[i].handle < |a|
  }

  /** No node is a child twice, neither of two parents nor twice of one. */
  ghost predicate Unshared(a: seq<Node>)
  {
    forall p, i, q, j ::
      (0 <= p < |a| && 0 <= i < |a[p].kids| && 0 <= q < |a| && 0 <= j < |a[q].kids| &&
       a[p].kids[i].Sub? && a[p].kids[i] == a[q].kids[j]) ==> p == q && i == j
  }

  /** Handle h is nobody's child. */
  ghost predicate Unreferenced(a: seq<Node>, h: nat)
  {
    forall p, i :: 0 <= p < |a| && 0 <= i < |a[p].kids| ==> a[p].kids[i] != Sub(h)
  }

  /** The arena after appending item x as the last child of node p. */
  function Append(a: seq<Node>, p: nat, x: Item): (r: seq<Node>)
    requires p < |a|
    ensures |r| == |a| && r[p].kids == a[p].kids + [x]
    ensures forall k :: 0 <= k < |a| && k != p ==> r[k] == a[k]
  {
    a[p := a[p].(kids := a[p].kids + [x])]
  }

  lemma AppendFreshKeepsUnshared(a: seq<Node>, p: nat, h: nat)
    requires p < |a| && Unshared(a) && Unreferenced(a, h)
    ensures Unshared(Append(a, p, Sub(h)))
  {
    var r := Append(a, p, Sub(h));
    forall q, i, q', j |
      0 <= q < |r| && 0 <= i < |r[q].kids| && 0 <= q' < |r| && 0 <= j < |r[q'].kids| &&
      r[q].kids[i].Sub? && r[q].kids[i] == r[q'].kids[j]
      ensures q == q' && i == j
    {
      var new1 := q == p && i == |a[p].kids|;
      var new2 := q' == p && j == |a[p].kids|;
      if !new1 && !new2 {
        assert r[q].kids[i] == a[q].kids[i] && r[q'].kids[j] == a[q'].kids[j];
      } else if new1 && !new2 {
        assert r[q'].kids[j] == a[q'].kids[j];
      } else if !new1 && new2 {
        assert r[q].kids[i] == a[q].kids[i];
      }
    }
  }

  lemma AppendTipKeepsUnshared(a: seq<Node>, p: nat, l: Leaf)
    requires p < |a| && Unshared(a)
    ensures Unshared(Append(a, p, Tip(l)))
  {
    var r := Append(a, p, Tip(l));
    forall q, i, q', j |
      0 <= q < |r| && 0 <= i < |r[q].kids| && 0 <= q' < |r| && 0 <= j < |r[q'].kids| &&
      r[q].kids[i].Sub? && r[q].kids[i] == r[q'].kids[j]
      ensures q == q' && i == j
    {
      assert !(q == p && i == |a[p].kids|);
      assert !(q' == p && j == |a[p].kids|);
      assert r[q].kids[i] == a[q].kids[i] && r[q'].kids[j] == a[q'].kids[j];
    }
  }

  lemma PushChildlessKeepsUnshared(a: seq<Node>, n: Node)
    requires Unshared(a) && n.kids == []
    ensures Unshared(a + [n])
  {
    var r := a + [n];
    forall q, i, q', j |
      0 <= q < |r| && 0 <= i < |r[q].kids| && 0 <= q' < |r| && 0 <= j < |r[q'].kids| &&
      r[q].kids[i].Sub? && r[q].kids[i] == r[q'].kids[j]
      ensures q == q' && i == j
    {
      assert q < |a| && q' < |a|;
      assert r[q] == a[q] && r[q'] == a[q'];
    }
  }

  // ---------------------------------------------------------------------------
  // Finite depth and tree size
  // ---------------------------------------------------------------------------

  /** Every path of children from h is shorter than d steps (and stays inside
      the arena).  A breadth-first walk from h then visits finitely many items;
      when it fails for d = |a| + 1 some path repeats a handle, so the walk in
      the source never ends. */
  predicate Finite(a: seq<Node>, h: nat, d: nat)
    decreases d
  {
    h < |a| && d > 0 &&
    forall i :: 0 <= i < |a[h].kids| && a[h].kids[i].Sub? ==> Finite(a, a[h].kids[i].handle, d - 1)
  }

  lemma {:induction false} FiniteMono(a: seq<Node>, h: nat, d: nat, d': nat)
    requires Finite(a, h, d) && d <= d'
    ensures Finite(a, h, d')
    decreases d
  {
    forall i | 0 <= i < |a[h].kids| && a[h].kids[i].Sub?
      ensures Finite(a, a[h].kids[i].handle, d' - 1)
    {
      FiniteMono(a, a[h].kids[i].handle, d - 1, d' - 1);
    }
  }

  /** Number of nodes and leaves met by a walk from h, cut off at depth d. */
  ghost function TreeSize(a: seq<Node>, h: nat, d: nat): nat
    decreases d, 0, 0
  {
    if h < |a| && d > 0 then 1 + ItemsSize(a, a[h].kids, d - 1) else 0
  }

  ghost function ItemsSize(a: seq<Node>, items: seq<Item>, d: nat): nat
    decreases d, 1, |items|
  {
    if items == [] then 0
    else (if items[0].Sub? then TreeSize(a, items[0].handle, d) else 1) + ItemsSize(a, items[1..], d)
  }

  lemma {:induction false} ItemsSizeAppend(a: seq<Node>, s: seq<Item>, t: seq<Item>, d: nat)
    ensures ItemsSize(a, s + t, d) == ItemsSize(a, s, d) + ItemsSize(a, t, d)
    decreases |s|
  {
    if s != [] {
      assert (s + t)[0] == s[0] && (s + t)[1..] == s[1..] + t;
      ItemsSizeAppend(a, s[1..], t, d);
    } else {
      assert s + t == t;
    }
  }

  ghost predicate AllFinite(a: seq<Node>, items: seq<Item>, d: nat)
  {
    forall i :: 0 <= i < |items| && items[i].Sub? ==> Finite(a, items[i].handle, d)
  }

  /** Once the walk ends before depth d, cutting it off later changes nothing. */
  lemma {:induction false} TreeSizeStable(a: seq<Node>, h: nat, d: nat, d': nat)
    requires Finite(a, h, d) && d <= d'
    ensures TreeSize(a, h, d) == TreeSize(a, h, d')
    decreases d, 0, 0
  {
    ItemsSizeStable(a, a[h].kids, d - 1, d' - 1);
  }

  lemma {:induction false} ItemsSizeStable(a: seq<Node>, items: seq<Item>, d: nat, d': nat)
    requires AllFinite(a, items, d) && d <= d'
    ensures ItemsSize(a, items, d) == ItemsSize(a, items, d')
    decreases d, 1, |items|
  {
    if items != [] {
      if items[0].Sub? {
        TreeSizeStable(a, items[0].handle, d, d');
      }
      assert AllFinite(a, items[1..], d) by {
        forall i | 0 <= i < |items[1..]| && items[1..][i].Sub?
          ensures Finite(a, items[1..][i].handle, d)
        {
          assert items[1..][i] == items[i + 1];
        }
      }
      ItemsSizeStable(a, items[1..], d, d');
    }
  }
}
