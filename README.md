# Treebank tree builders: NEGRA export grids and TIGER-XML graphs

This project models the part of two NLTK corpus readers that turns one sentence's
flat, parent-link annotation into an ordered constituency tree.

**NEGRA export reader.** A sentence is a grid of rows:
- terminal rows come first, in surface order;
- then `#`-numbered non-terminal rows follow, the root last.

The builder works in three steps:
1. It registers the non-terminals from the last row to the first.
   - The first one seen with parent `0` is the root.
   - Every later parent `0` is redirected to that root.
2. It walks the terminals once. Each terminal gets a unary node whose only child is the leaf.
   - At every change of parent, the ancestors of the previous parent are attached up to the root, unless they are already attached.
3. It replays the recorded secondary edges of non-terminals. Each one is a breadth-first copy of a subtree under a second parent.

The leaves are either bare words (`parsed_sents`) or `Atom`s that also carry the tag, morphology, lemma, edge labels, grid line and parent node (`parsed_sents_morph`). The reader's column configuration, its column-index map and its column extractor are modelled too.

**TIGER-XML reader.** A sentence is a graph:
- a root id;
- terminals and non-terminals, each with ordered edge and secondary-edge lists.

The builder works in these steps:
1. It decides whether to elide a technical `VROOT` and which non-terminal becomes the root.
2. It makes a unary node per terminal and an empty node per non-terminal.
3. It attaches children through the edges, copying each edge label onto the child and onto its atom.
   - It rejects a constituent attached twice.
   - Under an elided `VROOT`, the other children are re-hung under the real root.
4. Finally it copies the secondary-edge subtrees with its own breadth-first copy.

**Representation.**
- **Trees:** Python trees are mutable objects shared by reference. Here every tree lives in an arena, a `seq<Node>` indexed by handle. A child is `Sub(handle)` or `Tip(leaf)`, and Python object identity is handle identity.
- **Outcomes:** a builder ends in one of four ways:
  - `Built(arena, root)`;
  - `NoTree` (the source returns `None`);
  - `Crash(e)` (an exception escapes: `KeyError`, `ValueError`, `IndexError`, `AssertionError`, `NameError`);
  - `Hang` (a loop of the source never ends).
- **Proof style:** each loop of the source is a method proved equal to a recursive specification function, and the properties are lemmas about those functions. The breadth-first copies are proved against a declarative "mirror" relation. That relation says the new nodes form a fresh copy of the source subtree, with the same labels, line numbers, edges and child order, and that nothing else changes.

**Behaviour worth knowing.**
- **No final ancestor walk in NEGRA.** No ancestor walk follows the NEGRA terminal loop. The chain above the last chunk is attached only if an earlier change of parent reached it. `NegraExamples.LostSentence` shows a sentence whose root comes back childless.
- **TIGER root choice.** When `VROOT` is elided, the root is the *last* non-terminal target among its edges.
- **TIGER ids.** The TIGER reader keys everything by XML id strings. It renumbers nothing.
- **Crashes.** Several malformed inputs raise `KeyError` rather than giving `None`: an unknown parent, an unknown secondary-edge target, a missing root.
- **Unsupported column name.** This raises `NameError`, because NegraCorpusReader/NegraCorpusReader.py:137 formats a misspelt variable while building its `ValueError`.

## Model

| member | source | states |
|---|---|---|
| Arena.MakeLeaf | NegraCorpusReader/NegraCorpusReader.py:419-427 | A leaf exists iff bare words are asked for (the builder at :389) or the row has a morphology value. Its text is the word. It is an Atom exactly in morph mode. The Atom carries the given parent and grid line, and the row's tag, morphology, lemma, edge, secondary edge and comment |
| Arena.LeafEqIsEquivalence | NegraCorpusReader/NegraCorpusReader.py:62-67 | Leaf equality (Atom by word, never equal to a non-Atom) is reflexive, symmetric and transitive, and equal leaves have the same text |
| Arena.AtomEqualityIgnoresAnnotation | NegraCorpusReader/NegraCorpusReader.py:62-65 | Two Atoms with the same word are equal whatever their annotations; an Atom never equals a bare string |
| Arena.AtomLen | NegraCorpusReader/NegraCorpusReader.py:58-59 | The length of an Atom is the length of the string it stands for |
| Arena.AtomAt | NegraCorpusReader/NegraCorpusReader.py:60-61 | Indexing an Atom is Python string indexing of the text it stands for, the same as indexing the bare word: a character for indices from -len to len - 1, IndexError exactly for any other index |
| Arena.Append | NegraCorpusReader/NegraCorpusReader.py:332 | Appending a child to node p adds it as p's last child and changes no other node |
| NegraColumns.Configure | NegraCorpusReader/NegraCorpusReader.py:133-139 | A non-list argument gives the default column types. A list is accepted iff every name is a supported type, and is then kept as given; otherwise NameError |
| NegraColumns.ColMap | NegraCorpusReader/NegraCorpusReader.py:147 | Every key of the column map names the column at its index |
| NegraColumns.ColMapKeys | NegraCorpusReader/NegraCorpusReader.py:147 | The map's keys are exactly the configured column names |
| NegraColumns.ColMapIsLastPosition | NegraCorpusReader/NegraCorpusReader.py:147 | c maps to i iff column i is c and no later column is c (a repeated name keeps its last position) |
| NegraColumns.Column | NegraCorpusReader/NegraCorpusReader.py:459-460 | One value per row: the row's i-th field, or '' when the row is too short |
| NegraColumns.DropNodeRows | NegraCorpusReader/NegraCorpusReader.py:463-465 | The kept values are exactly the values not starting with '#' |
| NegraColumns.DropNodeRowsConcat | NegraCorpusReader/NegraCorpusReader.py:463-465 | Filtering distributes over concatenation, so kept values stay in their input order |
| NegraColumns.GetColumn | NegraCorpusReader/NegraCorpusReader.py:454-466 | Without filtering, the whole padded column. With filtering, exactly its values not starting with '#' (the corrected filter, see Findings) |
| NegraColumns.GetColumnAsWritten | NegraCorpusReader/NegraCorpusReader.py:454-466 | As written, the filter raises IndexError iff filtering is on and some row was padded with ''. Otherwise it agrees with GetColumn |
| NegraColumns.PaddedRowBreaksFilter | NegraCorpusReader/NegraCorpusReader.py:463-465 | A grid with a short row makes the filter crash, where the corrected filter keeps the padded value |
| PyStr.ParseInt | NegraCorpusReader/NegraCorpusReader.py:275-276 | Python's int() on a string: defined iff it is ASCII digits with an optional sign; the value of the digits, negated after '-' and unchanged after '+' |
| PyStr.ParseShow | NegraCorpusReader/NegraCorpusReader.py:339 | Every natural number's decimal digits pass isdigit() and parse back to the number |
| NegraRegister.Register | NegraCorpusReader/NegraCorpusReader.py:269-300 | The registration loop over the non-terminal rows, last to first, equals the recursive registration Registered |
| NegraRegister.FailureStays | NegraCorpusReader/NegraCorpusReader.py:273-300 | An exception raised on a later row escapes the whole registration |
| NegraRegister.RegisteredOk | NegraCorpusReader/NegraCorpusReader.py:275-297 | Registration succeeds iff every non-terminal row has an integer id and parent, and, when copying, a secondary edge with a comment that is an integer |
| NegraRegister.RootAbsent | NegraCorpusReader/NegraCorpusReader.py:279-284 | No root is found iff no non-terminal row has parent 0 |
| NegraRegister.RootIsLastZeroRow | NegraCorpusReader/NegraCorpusReader.py:279-284 | The root is the id of the last row with parent 0: the first such row met by the reversed scan |
| NegraRegister.RegisteredRow | NegraCorpusReader/NegraCorpusReader.py:286-289 | The first row with a given id has its node, made from that row's tag, line and edge, in the node table. Its recorded parent is the root when the row says 0, and the row's parent otherwise |
| NegraRegister.RegisteredKeys | NegraCorpusReader/NegraCorpusReader.py:286 | The node table holds exactly the ids of the non-terminal rows |
| NegraRegister.NothingRecordedWithoutCopying | NegraCorpusReader/NegraCorpusReader.py:291-300 | Without secondary-edge copying, no copies are recorded |
| NegraRegister.SecedgeRows | NegraCorpusReader/NegraCorpusReader.py:273-293 | The rows registration records copies for are exactly the non-terminal rows with a non-empty secondary edge, listed from the last one up |
| NegraRegister.RegisteredCopies | NegraCorpusReader/NegraCorpusReader.py:291-297 | With copying on, the recorded copies correspond one for one and in order with those rows. Each names its row's number and label. Its target is the comment's number. A comment of 0 names the root if a parent-0 row lies at or after that row, and nothing otherwise |
| NegraRegister.RegisteredValid | NegraCorpusReader/NegraCorpusReader.py:269-300 | After registration, the node table, parent table and arena agree: every registered id names a childless node made from its row |
| NegraTerminals.Climb | NegraCorpusReader/NegraCorpusReader.py:320-325 | The ancestor walk keeps the arena's size, and it stops only by a KeyError (an unknown ancestor) or by never reaching the root |
| NegraTerminals.CloseChunk | NegraCorpusReader/NegraCorpusReader.py:319-325 | The while loop of a chunk close equals the recursive walk bounded by the number of recorded parents |
| NegraTerminals.ClimbGrows | NegraCorpusReader/NegraCorpusReader.py:320-325 | The walk only appends children: every node keeps its children as a prefix |
| NegraTerminals.ClimbAttaches | NegraCorpusReader/NegraCorpusReader.py:321-325 | After the walk, every node on the chain from the last parent up to the root is a child of its own parent |
| NegraTerminals.ClimbNoRepeats | NegraCorpusReader/NegraCorpusReader.py:323-324 | The walk attaches an ancestor at most once: a node with no repeated child keeps none |
| NegraTerminals.SecedgeNodeShape | NegraCorpusReader/NegraCorpusReader.py:335-354 | A terminal's secondary edge adds one unary node with the secondary label as edge, under the comment-named parent (0 means the root). A missing, empty or non-digit comment gives None, an unknown parent a KeyError |
| NegraTerminals.PlaceTerminalShape | NegraCorpusReader/NegraCorpusReader.py:328-354 | A terminal becomes a unary node (its tag, line and edge) whose one child is the leaf with the row's word, appended to its parent. It adds a second node exactly when copying and a secondary edge is present. It stops only by KeyError or by a malformed secondary edge |
| NegraTerminals.StopStays | NegraCorpusReader/NegraCorpusReader.py:307-357 | Once a terminal row stops the pass, no later row changes the outcome (the early return) |
| NegraTerminals.AttachTerminals | NegraCorpusReader/NegraCorpusReader.py:307-357 | The terminal loop equals the recursive terminal pass Terminals |
| NegraTerminals.MakeTerminal | NegraCorpusReader/NegraCorpusReader.py:309-333 | One iteration of the loop (root substitution, chunk close, placement) equals TerminalStep |
| NegraTerminals.Place | NegraCorpusReader/NegraCorpusReader.py:328-354 | Placing one terminal and its secondary copy equals PlaceTerminal |
| NegraTerminals.ClimbKeeps | NegraCorpusReader/NegraCorpusReader.py:320-325 | The ancestor walk keeps the tree invariant: closed handles, no node with two parents, the root nobody's child, registered nodes in order |
| NegraTerminals.TerminalsKeep | NegraCorpusReader/NegraCorpusReader.py:307-357 | The whole terminal pass keeps that invariant |
| NegraTerminals.TerminalsPlaced | NegraCorpusReader/NegraCorpusReader.py:308-333 | After the whole terminal pass, each terminal row has a node with the row's tag, line and edge whose first child is the row's word, and that node is a child of the node of the row's parent (0 meaning the root) |
| SubtreeCopy.RebuiltLeaf | NegraCorpusReader/NegraCorpusReader.py:488-491 | A copied leaf is rebuilt iff its node's line has a row the leaf builder accepts. It has the row's word and the copy parent. In morph mode it is an Atom whose grid line is the node's line and whose tag, morphology, lemma, secondary edge and comment are that row's. Its edge is the row's, except that TIGER gives a leaf directly under the copy root the copy's label |
| SubtreeCopy.CopySubtree | NegraCorpusReader/NegraCorpusReader.py:468-493 | The breadth-first copy appends one fresh subtree as the target's last child. It mirrors the source (labels, lines, edges, child order, rebuilt leaves) with the root edge set to the label, and nothing else changes. It fails only by the missing-row error or a KeyError, and never when every leaf can be rebuilt |
| SubtreeCopy.CopyKeepsRebuildable | NegraCorpusReader/TigerXMLCorpusReader.py:194-218 | After a copy, every leaf still sits under a node whose line has a rebuildable token, so later copies cannot fail |
| NegraBuild.Prepared | NegraCorpusReader/NegraCorpusReader.py:269-357 | Up to the replay, the builder's state satisfies the tree invariant and comes from the registration. A stop is never a tree |
| NegraBuild.Payloads | NegraCorpusReader/NegraCorpusReader.py:489-491 | The rows the copy reads leaves from, by line number |
| NegraBuild.CopyKeepsUnreferenced | NegraCorpusReader/NegraCorpusReader.py:493 | A subtree copy makes no existing parentless node a child |
| NegraBuild.Replay | NegraCorpusReader/NegraCorpusReader.py:359-365 | The replay loop performs the recorded copies in order, each one a CopiedInto step; it stops only as CopyStopped says. With no recorded copies the tree is unchanged. It keeps the tree closed and unshared |
| NegraBuild.BuildGrid | NegraCorpusReader/NegraCorpusReader.py:252-367 | The whole helper: the stop of an earlier phase is the outcome; otherwise the result is the root's node after the replayed copies, or a replay stop. A built tree is closed, unshared, with an unreferenced root |
| NegraBuild.GridTokens | NegraCorpusReader/NegraCorpusReader.py:381-415 | One token per grid row, with morphology exactly in morph mode and the optional lemma, edge, secondary edge and comment exactly when their column is configured; a missing required column is a KeyError |
| NegraBuild.GridTokensRead | NegraCorpusReader/NegraCorpusReader.py:406-411 | Tokens are made iff bare mode or a morph column exists, and each reads word, tag and parent from their configured columns |
| NegraBuild.GridTokensAnnotated | NegraCorpusReader/NegraCorpusReader.py:406-415 | In the Atom reader, the morphology column and each declared lemma, edge, secondary-edge and comment column give every token the value of its own row at that column's last configured position |
| NegraBuild.ParseGrid | NegraCorpusReader/NegraCorpusReader.py:369-428 | `_get_parsed_words` (bare words) and `_get_parsed_words_morph` (Atoms) on one grid. Their callers have already checked the columns with `_require`; this model still gives KeyError for a missing column, and otherwise gives the tree builder's outcome (copies only in morph mode). A built tree is the prepared arena after replaying every recorded copy, with the registered root; a replay that stops does so as one copy step allows |
| NegraExamples.HouseSentence | NegraCorpusReader/NegraCorpusReader.py:79-89 | The documentation's grid gives S(NP(DET The, N house), VP(V is, ADJ red), . .), children in that order |
| NegraExamples.LostSentence | NegraCorpusReader/NegraCorpusReader.py:307-357 | A sentence whose only chunk hangs below a non-root node comes back with a childless root, for lack of a final ancestor walk |
| TigerGraph.FirstUnderscoreOf | NegraCorpusReader/TigerXMLCorpusReader.py:228 | The split at '_' finds the first underscore |
| TigerGraph.SecondFieldOf | NegraCorpusReader/TigerXMLCorpusReader.py:228 | split('_')[1] is the text between the first and second underscore, and does not exist without an underscore |
| TigerGraph.LowerIsVroot | NegraCorpusReader/TigerXMLCorpusReader.py:228 | The lowered field is 'vroot' iff it spells VROOT in any mix of cases |
| TigerGraph.SkipVroot | NegraCorpusReader/TigerXMLCorpusReader.py:227-229 | A root id without '_' raises IndexError; VROOT is skipped only if there is more than one non-terminal |
| TigerGraph.SkipCorpusVroot | NegraCorpusReader/TigerXMLCorpusReader.py:227-229 | For root ids u_t or u_t_w (second field t), VROOT is skipped iff t lowers to 'vroot' and there is more than one non-terminal |
| TigerGraph.TerminalLeaves | NegraCorpusReader/TigerXMLCorpusReader.py:156-183 | A terminal's node holds the bare word, or an Atom with word, tag, morph, lemma, no edge annotations, its index as grid line and the node as parent |
| TigerGraph.Secedges | NegraCorpusReader/TigerXMLCorpusReader.py:244-246 | A node's secondary edges are recorded in document order with their label and target |
| TigerGraph.TerminalNodeAt | NegraCorpusReader/TigerXMLCorpusReader.py:235-243 | Terminal i becomes the POS-labelled unary node at handle i, with grid line i and no edge |
| TigerGraph.TerminalIdKeys | NegraCorpusReader/TigerXMLCorpusReader.py:241-242 | The id table and the terminal-id set hold exactly the terminals' ids |
| TigerGraph.TerminalIdLast | NegraCorpusReader/TigerXMLCorpusReader.py:241 | A repeated terminal id names its last terminal |
| TigerGraph.NumTerminalsDistinct | NegraCorpusReader/TigerXMLCorpusReader.py:247 | num_terminals counts the distinct terminal ids |
| TigerGraph.ReadTerminals | NegraCorpusReader/TigerXMLCorpusReader.py:235-246 | The terminal loop equals the recursive terminal reading |
| TigerGraph.RootScanLast | NegraCorpusReader/TigerXMLCorpusReader.py:261-263 | The VROOT scan ends on the last edge target that is not a terminal, or keeps the old value if there is none |
| TigerGraph.RootChoice | NegraCorpusReader/TigerXMLCorpusReader.py:248-263 | The root is the graph's root id unless VROOT is skipped, and then the last non-terminal target of the VROOT's edges |
| TigerGraph.NonterminalNodeAt | NegraCorpusReader/TigerXMLCorpusReader.py:250-256 | Each kept non-terminal j becomes an empty node labelled with its category, grid line j + num_terminals, placed after the terminals in order |
| TigerGraph.NonterminalFrame | NegraCorpusReader/TigerXMLCorpusReader.py:250-259 | Reading non-terminals keeps the terminal nodes and payloads, and registers every kept non-terminal's id |
| TigerGraph.RecordSecedges | NegraCorpusReader/TigerXMLCorpusReader.py:257-259 | The secondary-edge loop appends the node's edges in order |
| TigerGraph.ScanRoot | NegraCorpusReader/TigerXMLCorpusReader.py:261-263 | The root-scan loop equals RootScan |
| TigerGraph.ReadNonterminals | NegraCorpusReader/TigerXMLCorpusReader.py:250-263 | The non-terminal loop equals the recursive reading |
| TigerAttach.Relabel | NegraCorpusReader/TigerXMLCorpusReader.py:277-281 | Relabelling a child changes no other node |
| TigerAttach.Attached | NegraCorpusReader/TigerXMLCorpusReader.py:266-292 | Attaching keeps the arena's size and stops only with None (a double attachment) or a KeyError (an unknown id) |
| TigerAttach.AttachKeptStep | NegraCorpusReader/TigerXMLCorpusReader.py:273-282 | Attaching a new, known child sets its edge to the label, appends it to its parent and records it as attached |
| TigerAttach.AttachUnder | NegraCorpusReader/TigerXMLCorpusReader.py:268-282 | The loop over a kept non-terminal's edges equals the attachment of its links |
| TigerAttach.Rehang | NegraCorpusReader/TigerXMLCorpusReader.py:283-292 | The loop over a skipped VROOT's edges equals the re-hanging of its links under the root |
| TigerAttach.AttachNonterminal | NegraCorpusReader/TigerXMLCorpusReader.py:267-292 | The edges of one non-terminal are attached under it, or re-hung under the root when it is the skipped VROOT, as Attached over its records says |
| TigerAttach.AttachEdges | NegraCorpusReader/TigerXMLCorpusReader.py:266-292 | The whole attachment loop equals Attached over all links in document order |
| TigerAttach.AttachedOnce | NegraCorpusReader/TigerXMLCorpusReader.py:266-276 | On success, the targets of kept non-terminals' edges are distinct and are exactly the attached ids. A None result means some target repeats. With all ids known, distinct targets always succeed and a repeated target always gives None |
| TigerAttach.AttachLinkNode | NegraCorpusReader/TigerXMLCorpusReader.py:276-292 | One edge keeps each node's label, line and annotations, sets the target's edge to the label, and only appends children |
| TigerAttach.AttachedNode | NegraCorpusReader/TigerXMLCorpusReader.py:266-292 | After all edges, each node has its old label, line and annotations, the last label it was attached with, and its old children followed by the children adopted in edge order |
| TigerAttach.AttachedKeeps | NegraCorpusReader/TigerXMLCorpusReader.py:278-291 | Attachment keeps the arena closed and every Atom's edge equal to its unary node's edge |
| TigerBuild.ReadNode | NegraCorpusReader/TigerXMLCorpusReader.py:235-263 | Before attachment, a node is a terminal's unary node or an empty node without edge |
| TigerBuild.ReadShape | NegraCorpusReader/TigerXMLCorpusReader.py:235-263 | The read nodes are closed, agree with their atoms, and every leaf's terminal line has a token, so the copies can rebuild them |
| TigerBuild.PreparedReady | NegraCorpusReader/TigerXMLCorpusReader.py:226-292 | After attachment, ids name nodes, secondary-edge sources exist, and the arena is closed and rebuildable |
| TigerBuild.CopySecedges | NegraCorpusReader/TigerXMLCorpusReader.py:294-297 | The copies are made in recorded order, each a CopiedInto step under the named parent. It stops with a hang for a cyclic source, or otherwise with KeyError for an unknown parent. With no secondary edges the tree is unchanged |
| TigerBuild.Rooted | NegraCorpusReader/TigerXMLCorpusReader.py:298 | The result is the root's node iff the root id is known; otherwise KeyError |
| TigerBuild.SentenceTree | NegraCorpusReader/TigerXMLCorpusReader.py:220-298 | The whole builder: an early stop is the outcome. Otherwise the root's node, without copies or after all copies in order. A copy stop is a hang or an unknown parent. A built tree is closed |
| TigerBuild.SentenceRoot | NegraCorpusReader/TigerXMLCorpusReader.py:248-263 | The root id is the graph's root, or with VROOT skipped the last non-terminal VROOT target |
| TigerBuild.SentenceNoTree | NegraCorpusReader/TigerXMLCorpusReader.py:266-275 | None from the attachment means some constituent is a target twice; with all ids known, attachment succeeds iff the targets are distinct, and gives None iff some target repeats |
| TigerExamples.HelloBuilt | NegraCorpusReader/TigerXMLCorpusReader.py:220-298 | A two-word graph without VROOT builds S(ITJ Hallo, $. !) with edges HD and -- |
| TigerExamples.YesBuilt | NegraCorpusReader/TigerXMLCorpusReader.py:226-292 | A graph with a VROOT over S and a punctuation mark elides VROOT and re-hangs the mark under S |
| TigerExamples.TwiceNoTree | NegraCorpusReader/TigerXMLCorpusReader.py:273-274 | A terminal that two non-terminals both claim gives None |

## Left out

- File and stream reading are not modelled: `_read_grid_block`, block splitting by regular expression, the XML parsing by ElementTree, the lazy corpus views and the word/tag projections. They are I/O and library calls. A grid is given as a `seq<seq<string>>`, and a TIGER sentence as an abstract graph record with ordered terminals, non-terminals, edges and secondary edges.
- Missing attributes are not modelled. An absent TIGER attribute is read as the text "None" (Python's `unicode(None)`), and an absent id is not modelled.
- Parent bookkeeping inside NLTK's `Tree`/`ParentedTree` is not modelled. This includes `ParentedTree`'s refusal to give a node a second parent. Each leaf's parent is modelled as a plain handle.
- The membership test at NegraCorpusReader/NegraCorpusReader.py:323 is Python `in` on a list, which compares by equality. It is modelled as handle membership, i.e. identity.
- Python identity tests are modelled as equality. `parent is 0` (NegraCorpusReader/NegraCorpusReader.py:279, :283, :295) becomes integer equality. `token[0] is not '#'` (:465) becomes string inequality. When the reader is given an encoding the cells are unicode strings, and `u'#' is not '#'` is then always true, so the filter keeps '#' rows; the model does not capture that.
- `Lower` lowercases ASCII letters only.
- PyStr.ParseInt and PyStr.IsDigits read cells as byte strings with ASCII digits. When a corpus encoding is given, the cells are unicode strings, and Python 2's `int()` and `isdigit()` then also accept other Unicode decimal digits. That case is not modelled.
- Arena.AtomAt models integer indexing only. Slicing an Atom is not modelled.
- `Atom`'s `__str__`, `__repr__` and `__unicode__` are not modelled. Only the text a leaf stands for is.
- A loop that never ends is modelled by a bound:
  - the chunk-close walk runs at most as many steps as there are recorded parents;
  - a copy's source subtree is checked for a cycle before copying.
  
  Exceeding either gives `Hang`. The argument that exceeding the bound implies a real cycle is not proved.
- NegraBuild.Replay: when a copy stops on a subtree without a cycle, its contract allows `Crash(IndexError)` or `Crash(KeyError)`, although neither can happen. The NEGRA passes do not carry forward the fact that every leaf's line has a row with a morphology value. The TIGER copy phase carries that fact and states its stops exactly.
- NegraBuild.BuildGrid: inherits the weaker copy-stop clause of NegraBuild.Replay.
- TigerBuild.SentenceTree: it does not separate a `KeyError` from an unknown copy parent from one raised by a missing root after all copies. Both are stated as possible when copies are on.
- `_get_tagged_words` and `_get_words` are not modelled. Neither builds a tree.

## Findings

| source | as written | input that shows it | evidently intended | confidence | as-written member | corrected member |
|---|---|---|---|---|---|---|
| NegraCorpusReader/NegraCorpusReader.py:463-465 | With filtering on, `token[0]` is read for every value, including the `''` padded in for a short row, which raises IndexError | the grid `[["Haus"], ["ist", "rot"]]`, column 1, filter on | drop only the values that start with `#`, and keep the padded `''` | not executed | NegraColumns.GetColumnAsWritten | NegraColumns.GetColumn |
