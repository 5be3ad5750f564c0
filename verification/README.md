# Molecule graph encoding and formula rewriting, in Dafny

This project models the preprocessing core of a molecule-understanding
pipeline. That core has two pure pieces.

**Molecular graph encoding** (`preprocess/graph_handler.py`). A parsed
molecule becomes a numeric graph. The graph has one ten-wide feature row per
atom, a two-row edge index with one column per directed edge, and one
five-wide feature row per directed edge. There are three routes to such a
graph:

- the structure-string route, `smiles_to_pyg`;
- the attributed-graph route, `smiles_to_nx` followed by `nx_to_pyg`;
- the file route, `load_graphml` and `load_graph`, which read graphs saved as
  GraphML files and key them by file stem.

Fixed placeholder values stand in for missing input: the string "None", an
unparsable string, a molecule without bonds, an empty or unreadable graph.

**Formula rewriting** (`preprocess/formula_handler.py`, `process_formula`).
A chemical formula string is rewritten in four steps:

1. it is split into element-symbol tokens and number tokens;
2. a count of "1" is inserted after every symbol that has no count;
3. known symbols are replaced by element names from a fixed table;
4. the words are joined with single spaces.

For example, "H2O" becomes "Hydrogen 2 Oxygen 1".

Modules:

| module | file | contents |
|---|---|---|
| `Wrappers` | wrappers.dfy | `Option`, `Result` |
| `Chars` | chars.dfy | ASCII character classes and digit values |
| `Molecule` | molecule.dfy | the chemistry toolkit's molecule as the encoder sees it, and what the toolkit guarantees of it (`ValidMol`) |
| `Features` | features.dfy | `atom_feature` and `bond_feature`, each with its decoder |
| `TensorGraph` | tensor_graph.dfy | the tensor graph record, its placeholder constants, and the two-row edge layout |
| `SmilesGraph` | smiles_graph.dfy | `get_edge_index` and `smiles_to_pyg` |
| `IntText` | int_text.dfy | Python's `int(text)` and decimal rendering |
| `NxGraph` | nx_graph.dfy | the networkx graph, including the order in which networkx reports edges, plus `smiles_to_nx` and `nx_to_pyg` |
| `GraphFile` | graph_file.dfy | `load_graphml`, a GraphML writer as its partner, `os.path.splitext`, and `load_graph` |
| `GraphRoundTrip` | graph_round_trip.dfy | a saved molecule graph, loaded back, converts to the tensors of the original graph |
| `FormulaScan` | formula_scan.dfy | the character scan of `process_formula` and a closed-form description of the tokens it produces |
| `Formula` | formula.dfy | "1" insertion, the abbreviation table, the space join, and the whole pass |

Modelling choices:

- **Toolkit calls are inputs.** Parsing a structure string is the chemistry
  toolkit's job, so its outcome is an input (`parsed: Option<Mol>`).
- **Reading a GraphML file is an input.** Its outcome is the node and edge
  lists with each attribute bag as `map<string, string>`, or `None` when
  reading fails.
- **Directory listings are inputs.** A listing is a sequence of entries in
  listing order.
- **Tensors are integer rows.** Each tensor is a sequence of exact integer
  rows. The edge index of `nx_to_pyg` is a `torch.LongTensor`, whose entries
  are signed 64-bit integers, so the model makes the conversion fail when an
  identifier lies outside that range. The feature tensors are float32 in the
  code; the model keeps their values exact (see "## Left out").
- **networkx edge order is modelled explicitly** (`NxGraph.EdgeView`).
  networkx walks nodes in insertion order. Each node reports its incident
  edges oriented away from itself, and skips edges whose other end it has
  already walked. It reports them neighbour by neighbour, in the order each
  neighbour's first edge arrived. Parallel edges to one neighbour stay
  together under it (`NxGraph.Group`); this happens when the graph library
  reads a file with parallel edges as a multigraph. Without parallel edges
  this is insertion order (`NxGraph.GroupDistinct`). The converter's column
  order depends on this, and the model proves that each edge is reported
  exactly once.
- **Exceptions are failures.** The exceptions `nx_to_pyg` can raise become a
  `Result` failure: `KeyError` when an edge has no bond type, `ValueError`
  when a node identifier is not an integer, and the error `torch.LongTensor`
  raises when an identifier does not fit 64 bits. `load_graph` does not catch
  them, so a failure ends the whole load.
- **The i = 0 quirk is kept.** At the first character, the formula scan reads
  `char_list[i-1]`, which is the last character. The model keeps this quirk:
  `FormulaScan.PrevChar` reads the last character when the index is 0.
  `FormulaScan.LeadingDigitWrapsAround` states what the quirk does.

Two behaviours of the code worth noting:

- **Unreadable files.** `load_graph` stores the placeholder graph under the
  stem of a file that fails to load (lines 203-205 and 213-215). It does not
  skip that file.
- **Molecules without bonds.** `smiles_to_pyg` keeps the real atom rows for a
  molecule without bonds (lines 67-79). Only the edge index and the edge
  features become placeholders.

## Model

| member | source | states |
|---|---|---|
| Features.AtomFeature | preprocess/graph_handler.py:22-32 | An atom's row has exactly ten values. Read in the fixed order (atomic number, degree, implicit hydrogens, explicit valence, implicit valence, total valence, radical electrons, hybridization, aromatic, in ring), they give back the atom's properties, with the two flags as 0/1. |
| Features.BondFeature | preprocess/graph_handler.py:34-39 | A bond's row has exactly five values: type, stereo, conjugated, aromatic, in ring. Decoding it with the bond's endpoints and type name gives back the bond. |
| Features.AtomRowDecodeInverse | preprocess/graph_handler.py:22-32 | Every row the atom decoder accepts is the feature row of what it decodes to, so atom rows and atom properties correspond one to one. |
| Features.BondRowDecodeInverse | preprocess/graph_handler.py:34-39 | Every row the bond decoder accepts is the feature row of the bond it decodes to. |
| Features.AtomRows | preprocess/graph_handler.py:64 | There is one feature row per atom, and row k is the features of atom k. |
| SmilesGraph.DirectedPairs | preprocess/graph_handler.py:60-61 | There are exactly twice as many atom pairs as bonds. Column c comes from bond c/2: forwards (begin, end) when c is even, backwards (end, begin) when c is odd. |
| SmilesGraph.DirectedPairsReciprocal | preprocess/graph_handler.py:60-61 | Every odd pair is the reverse of the pair before it. |
| SmilesGraph.GetEdgeIndex | preprocess/graph_handler.py:12-20 | The result is empty exactly when there are no bonds. Otherwise there are two rows of 2 × (bond count) columns: bond (i, j) gives column (i, j) and then column (j, i), so the columns come in reciprocal couples. |
| SmilesGraph.BondBetween | preprocess/graph_handler.py:63 | The lookup finds nothing exactly when no bond joins the two atoms in either direction. Otherwise it returns a bond of the molecule that joins them. |
| SmilesGraph.BondBetweenSymmetric | preprocess/graph_handler.py:63 | The lookup gives the same bond for (i, j) and (j, i). |
| SmilesGraph.BondBetweenFindsOwnBond | preprocess/graph_handler.py:60-63 | For a molecule the toolkit returns, looking up the endpoints of bond k finds bond k itself. |
| SmilesGraph.DirectedPairsHaveBonds | preprocess/graph_handler.py:60-65 | The bond lookup never fails for a pair built from the bond list. |
| SmilesGraph.PairFeatures | preprocess/graph_handler.py:63-65 | There is one feature row per directed pair: the features of the bond between its two atoms. |
| SmilesGraph.SmilesToPyg | preprocess/graph_handler.py:41-79 | "None" and an unparsable string both give exactly the sentinel graph. A parsed molecule keeps one atom row per atom, its molecule and its string. Without bonds, the edges are exactly the placeholder. With bonds, the edge index is the reciprocal directed pairs, there are 2 × (bond count) five-wide edge rows, and the two rows of each bond are identical. |
| SmilesGraph.SmilesToPygBondRows | preprocess/graph_handler.py:63-73 | For a molecule the toolkit returns, both edge rows of bond k are exactly that bond's features. |
| TensorGraph.Unzip | preprocess/graph_handler.py:19 | `list(zip(*pairs))` is empty for no pairs. Otherwise it is two rows whose column c is pair c. |
| TensorGraph.UnzipZip | preprocess/graph_handler.py:67-72 | The two-row layout loses nothing: pairs become rows and rows become pairs, with nothing changed either way. |
| IntText.ParseIntToString | preprocess/graph_handler.py:185-192 | `int` reads the decimal text of any integer back as that integer. |
| IntText.ParseInt | preprocess/graph_handler.py:185-192 | `int` raises on text without a digit. Text made only of digits reads as its decimal value. A negative result needs a minus sign in the text. |
| IntText.IntToStringInjective | preprocess/graph_handler.py:162 | Distinct integers have distinct decimal text. |
| NxGraph.EdgeReportedOnce | preprocess/graph_handler.py:154 | In a graph whose nodes have distinct keys, networkx reports each edge exactly once, from whichever of its endpoints comes first in node order. |
| NxGraph.EdgeViewPermutesEdges | preprocess/graph_handler.py:154 | For a well-formed graph, `G.edges(data=True)` is a rearrangement of the graph's edges. Each edge appears in one of its two orientations, and the report holds each such oriented edge exactly as often as the graph does. |
| NxGraph.Group | preprocess/graph_handler.py:154 | Grouping the edges one node reports by neighbour keeps exactly the same edges, each as often: it only reorders them. |
| NxGraph.GroupDistinct | preprocess/graph_handler.py:154 | When no two of a node's edges lead to the same neighbour, grouping changes nothing, so the node reports its edges in insertion order. |
| NxGraph.ParallelEdgesGrouped | preprocess/graph_handler.py:154 | Take edges (a, b), (a, c), (a, b) inserted in that order. networkx reports both (a, b) edges before (a, c). |
| NxGraph.EdgesFromSize | preprocess/graph_handler.py:154 | In a well-formed graph the walk over all nodes reports exactly as many edges as the graph holds. |
| NxGraph.EdgeView | preprocess/graph_handler.py:154 | In a well-formed graph, networkx reports exactly as many edges as the graph holds. Every reported edge is an edge of the graph, in one orientation or the other, with the same attributes. |
| NxGraph.KeyToInt | preprocess/graph_handler.py:162 | An integer identifier reads as itself. A text identifier is read the way `int` reads text: a run of digits gives its decimal value, and text without a digit raises. |
| NxGraph.EdgeRow | preprocess/graph_handler.py:155-161 | An edge row has five values. Its first value is 1 exactly when the bond type is the text "SINGLE" and 0 otherwise. The rest are stereo and the three flags as 0/1. |
| NxGraph.EdgeEntries | preprocess/graph_handler.py:152-163 | The edge loop succeeds exactly when every reported edge has a bond type and integer endpoints. Then it emits 2 × (edge count) columns and rows: edge (u, v) gives column (u, v) and then (v, u), each with the edge's row. |
| NxGraph.NodeRows | preprocess/graph_handler.py:135-150 | There is one ten-wide row per node, in node order, and each row is the features of that node. |
| NxGraph.NxToPyg | preprocess/graph_handler.py:122-176 | No graph, or a graph without nodes, gives exactly one all-zero node row with the placeholder edges. Otherwise conversion succeeds exactly when every reported edge is convertible and both its identifiers fit a signed 64-bit integer, and the node rows follow node order. With no edges, the edges are the placeholder and the node rows are kept. With edges, column c is reported edge c/2, forwards or backwards, and carries that edge's row; the columns are reciprocal and the rows come in identical pairs. |
| NxGraph.NxToPygEdgeCount | preprocess/graph_handler.py:152-170 | A graph with nodes and edges that converts has 2 × (edge count) columns and 2 × (edge count) edge rows. |
| NxGraph.SmilesToNx | preprocess/graph_handler.py:81-120 | No molecule gives no graph. A molecule gives a well-formed graph with one node per atom and one edge per bond. Node k has key k and atom k's properties. Edge k joins the endpoints of bond k and carries that bond's type name, stereo and three flags. |
| NxGraph.ReportedBond | preprocess/graph_handler.py:105-118 | Every edge networkx reports for a molecule's graph is one of the molecule's bonds, with that bond's attributes. |
| NxGraph.BondReportedOnce | preprocess/graph_handler.py:154 | In a molecule's graph, networkx reports each bond at exactly one position of its edge report. |
| NxGraph.EachBondOneCouple | preprocess/graph_handler.py:154-170 | When a molecule's graph converts, each bond is carried by exactly one couple of columns, 2j and 2j + 1, with the bond's row in both. |
| NxGraph.OutOfRangeIdentifierFails | preprocess/graph_handler.py:169 | A readable edge whose identifier is one past the signed 64-bit maximum makes the conversion fail, because `torch.LongTensor` cannot hold it. |
| NxGraph.SmilesToNxToPyg | preprocess/graph_handler.py:81-176 | For a parsed molecule with atoms and bonds, and with atom indices that fit 64 bits, the graph route succeeds and gives the same node rows as the string route, with 2 × (bond count) columns. Every column joins the atoms of some bond, in one direction, and carries that bond's row with its type collapsed to "is SINGLE". Each bond is carried by exactly one couple of columns, 2j and 2j + 1. |
| NxGraph.NodeRowsMatchAtoms | preprocess/graph_handler.py:91-103 | The node rows of a molecule's graph are exactly the atom rows of the molecule. |
| GraphFile.IntField | preprocess/graph_handler.py:185-192 | A missing integer attribute reads as 0. A present one is parsed like `int` does, and is absent when it is not an integer. |
| GraphFile.FlagField | preprocess/graph_handler.py:193-194 | A flag is true exactly when the attribute is present and its text is "True". |
| GraphFile.LoadNode | preprocess/graph_handler.py:184-194 | A loaded node keeps its text identifier. Each of its eight integer fields is the stored integer, parsed as `int` does, or 0 when nothing is stored. Each of its two flags holds exactly when that flag's stored text is "True". |
| GraphFile.LoadEdge | preprocess/graph_handler.py:196-200 | A loaded edge keeps its endpoints. Its bond type is present exactly when one is stored, and then it is the stored text. Its stereo is the parsed or defaulted integer. Each flag holds exactly when its stored text is "True". |
| GraphFile.LoadGraphml | preprocess/graph_handler.py:178-205 | An unreadable file gives `None`. A readable one loads exactly when every stored integer attribute is an integer. The loaded graph has the same nodes and edges in the same order, each re-typed as above. |
| GraphFile.DefaultsForEmptyBags | preprocess/graph_handler.py:185-200 | Filling defaults is total. A node with no attributes loads and gives the all-zero atom row. An edge with no attributes loads with stereo 0, false flags and no bond type. |
| GraphFile.NodeRoundTrip | preprocess/graph_handler.py:184-194 | Any node written with its attributes as text loads back with exactly those attributes. |
| GraphFile.EdgeRoundTrip | preprocess/graph_handler.py:196-200 | Any edge written with its attributes as text loads back with exactly those attributes. |
| GraphFile.WriteThenLoad | preprocess/graph_handler.py:178-202 | A written graph loads back as the same graph, with its identifiers turned to text. |
| GraphFile.Stem | preprocess/graph_handler.py:211 | The stem is a prefix of the name. When it is shorter than the name, the name continues with a dot, no later dot follows, and the stem is not only dots. |
| GraphFile.StemOfGraphml | preprocess/graph_handler.py:210-211 | The name `base + ".graphml"` passes the suffix test. Its stem is `base`, unless `base` consists only of dots. |
| GraphFile.Convert | preprocess/graph_handler.py:213-214 | An unreadable file, or one whose integer attributes do not all parse, converts to exactly the placeholder graph. Only a loaded graph with nodes can make the conversion raise. |
| GraphFile.StoreGraphs | preprocess/graph_handler.py:209-215 | For any per-file conversion, the loop succeeds exactly when every `.graphml` entry converts. |
| GraphFile.LoadGraph | preprocess/graph_handler.py:207-216 | Loading a directory succeeds exactly when every `.graphml` entry converts without an exception. |
| GraphFile.StoreGraphsKeys | preprocess/graph_handler.py:209-215 | For any per-file conversion, after a successful loop the keys are exactly the stems of the `.graphml` entries. |
| GraphFile.LoadGraphKeys | preprocess/graph_handler.py:209-215 | After a successful load, the keys are exactly the stems of the `.graphml` entries. Other entries add nothing. |
| GraphFile.StoreGraphsLastWins | preprocess/graph_handler.py:213-215 | For any per-file conversion, the value under a file's stem is that file's conversion when no later `.graphml` entry has the same stem. |
| GraphFile.LoadGraphLastWins | preprocess/graph_handler.py:213-215 | The value stored under a file's stem is that file's conversion when no later `.graphml` entry has the same stem. |
| GraphFile.UnreadableFileStoresPlaceholder | preprocess/graph_handler.py:203-215 | A `.graphml` file that cannot be read is still stored under its stem, as the empty placeholder graph. |
| GraphRoundTrip.RenameKeyInjective | preprocess/graph_handler.py:162 | Two integer identifiers have the same text exactly when they are equal. |
| GraphRoundTrip.EdgeViewRenamed | preprocess/graph_handler.py:154 | Once its integer identifiers become text, networkx reports a graph's edges in the same order, each renamed. |
| GraphRoundTrip.GroupRenamed | preprocess/graph_handler.py:154 | Turning integer identifiers into text commutes with grouping a node's edges by neighbour, because distinct integers have distinct text. |
| GraphRoundTrip.KeyToIntRenamed | preprocess/graph_handler.py:162 | `int` reads the text form of an integer identifier as that identifier. |
| GraphRoundTrip.EdgeEntriesRenamed | preprocess/graph_handler.py:152-163 | The edge loop gives the same columns and rows, or the same error, on renamed edges as on the originals. |
| GraphRoundTrip.NxToPygRenamed | preprocess/graph_handler.py:122-176 | Turning integer identifiers into text does not change the converted graph. |
| GraphRoundTrip.SavedGraphConvertsAlike | preprocess/graph_handler.py:213-214 | A saved integer-keyed graph, loaded back, converts to exactly the tensors of the original graph. |
| GraphRoundTrip.MoleculeFileConvertsAlike | preprocess/graph_handler.py:213-214 | The directory loader stores a saved molecule graph as exactly what converting that molecule's graph gives. |
| FormulaScan.KeptBetween | preprocess/formula_handler.py:58-68 | Only digits and ASCII letters survive the scan. The survivors are no more than the scanned characters. |
| FormulaScan.KeptBetweenKeepsAll | preprocess/formula_handler.py:58-68 | No letter or digit is lost. There are exactly as many survivors as letters and digits in the stretch. The letter or digit at position k is survivor number n, where n counts the letters and digits before k, so the survivors keep their order. |
| FormulaScan.Step | preprocess/formula_handler.py:59-68 | A capital, or a digit whose previous character is not a digit, pushes the accumulator and starts a new one. Any other digit or letter is appended. Every other character changes nothing. |
| FormulaScan.ScanPrefix | preprocess/formula_handler.py:57-68 | After i characters, the pushed list is the kept text before each token start, and the accumulator is the kept text since the last start. This is the loop invariant of the scan. |
| FormulaScan.Tokenize | preprocess/formula_handler.py:54-71 | The tokens are exactly the kept characters from each token start up to the next start, or to the end. |
| FormulaScan.StartsBelowMembers | preprocess/formula_handler.py:59-68 | A position starts a token exactly when it holds a capital, or a digit whose previous character is not a digit. |
| FormulaScan.StartsBelowIncreasing | preprocess/formula_handler.py:58-68 | Token starts are strictly increasing positions. |
| FormulaScan.TokenShape | preprocess/formula_handler.py:59-68 | Every token is either a capital followed by lowercase letters, or a digit followed by digits and lowercase letters. |
| FormulaScan.KeptIsDiscardedThenTokens | preprocess/formula_handler.py:58-71 | The kept characters are the discarded prefix followed by the tokens, concatenated. Nothing is reordered and nothing else is lost. |
| FormulaScan.DiscardedIsFirstPush | preprocess/formula_handler.py:70-71 | The element that `[1:]` drops is exactly the kept text before the first token start. |
| FormulaScan.CapitalFirstDiscardsNothing | preprocess/formula_handler.py:66-71 | A formula that starts with a capital loses nothing to the dropped first element. |
| FormulaScan.LeadingDigitWrapsAround | preprocess/formula_handler.py:59 | Take a formula that starts with a digit. When it also ends with a digit, index -1 reads that last digit and a non-empty prefix starting with the first digit is discarded. When it ends otherwise, nothing is discarded. |
| Formula.InsertOnes | preprocess/formula_handler.py:73-85 | Insertion keeps the first token, never shortens the list, and leaves no alphabetic token without a count after it. |
| Formula.InsertOnesLayout | preprocess/formula_handler.py:74-85 | Token k moves right by the number of "1"s inserted before it. A "1" follows it exactly where it needs one. The length grows by the number of inserted "1"s. |
| Formula.InsertOnesFixpoint | preprocess/formula_handler.py:74-85 | Insertion changes nothing exactly when every alphabetic token is already followed by a count. |
| Formula.InsertOnesIdempotent | preprocess/formula_handler.py:73-85 | Inserting twice is the same as inserting once. |
| Formula.TokenOrOne | preprocess/formula_handler.py:74-85 | Every word after insertion is an inserted "1" or one of the original tokens. |
| Formula.NameFrom | preprocess/formula_handler.py:88-89 | The table lookup finds nothing exactly when no entry has the symbol. Otherwise it returns the name paired with the symbol in the table. |
| Formula.Expand | preprocess/formula_handler.py:87-89 | A token becomes the name the table pairs with it, or stays unchanged when the table has no such symbol. |
| Formula.ExpandAll | preprocess/formula_handler.py:87-89 | Expansion keeps the word count and expands each word in place. |
| Formula.TableShape | preprocess/formula_handler.py:19-52 | Every table symbol is a capital followed by at most one lowercase letter. Every name is at least four letters with no space. Symbols are distinct and names are distinct. |
| Formula.FullNameOfEntry | preprocess/formula_handler.py:19-52 | Each entry's symbol expands to its name, and its name abbreviates back to its symbol. |
| Formula.ExpandIdempotent | preprocess/formula_handler.py:87-89 | Expanding an expanded token changes nothing: no name is also a symbol. |
| Formula.AbbreviateExpand | preprocess/formula_handler.py:87-89 | Abbreviation undoes expansion for every token that is not itself an element name. |
| Formula.ExpandKeepsCounts | preprocess/formula_handler.py:87-89 | Number tokens and any other non-alphabetic tokens are never in the table and pass unchanged. |
| Formula.ExpandKeepsAlpha | preprocess/formula_handler.py:76-89 | A token is alphabetic after expansion exactly when it was before. |
| Formula.JoinSpaces | preprocess/formula_handler.py:91 | Take at least one word, none containing a space. Splitting the joined text at single spaces gives back the words, and the text holds exactly (word count − 1) spaces. |
| Formula.FormulaWordsHaveNoSpaces | preprocess/formula_handler.py:54-91 | No output word contains a space. |
| Formula.ProcessFormula | preprocess/formula_handler.py:54-91 | A formula without tokens becomes "". Otherwise the output splits at spaces back into the words, holds exactly (word count − 1) spaces, and every alphabetic word in it is followed by a count. |
| Formula.ProcessFormulaCountsExplicit | preprocess/formula_handler.py:73-89 | In the final word list, every alphabetic word is followed by a count. |
| Formula.WaterExample | preprocess/formula_handler.py:54-91 | "H2O" gives the tokens H, 2, O, the words Hydrogen, 2, Oxygen, 1, and the output "Hydrogen 2 Oxygen 1". |

## Left out

- The chemistry toolkit: parsing and the atom and bond accessors are a foreign library. `parsed` is their outcome. `ValidMol` states the toolkit's guarantees: dense zero-based atom indices, bonds between two distinct existing atoms, and at most one bond per atom pair.
- GraphML file reading: this is the graph library's I/O. The model sees only its outcome: each node once and the edges in the order the library stores them, all with text attributes, or `None` when reading fails.
- Typed GraphML attributes: the model reads every attribute as text. A file that declares an attribute's type makes the library return a typed value. A flag declared boolean would then never equal the text "True", so it would load as false. The model does not cover such files.
- Directed GraphML files: the model treats every file as undirected.
- The GraphML writer is not part of the repository's core. `GraphFile.WriteGraph` writes numbers in decimal and flags as "True"/"False", and exists only as the partner of the reader.
- `os.listdir` and `os.path.join`: these are I/O. The listing is an input sequence in listing order, and the joined path is never inspected.
- `os.path.splitext` is modelled for plain file names only. Listing entries contain no path separator.
- `int(text)`: the model strips the ASCII whitespace `int` strips (space, tab, line feed, vertical tab, form feed, carriage return, and U+001C to U+001F), then accepts an optional sign and digits with single underscores between them. It does not model Unicode digits or non-ASCII whitespace.
- Tensor construction (`FloatTensor`, `.t().contiguous()`, `Data`): tensors are sequences of exact integer rows. Of `LongTensor`, only its signed 64-bit range is modelled.
- NxGraph.NxToPyg: node rows and edge rows hold exact integers, while `torch.FloatTensor` (graph_handler.py lines 150 and 170) stores float32. An integer of magnitude above 2^24 comes back rounded, so "16777217" read from a file is stored as 16777216. A value too large for the tensor may raise instead. The model neither rounds nor raises for feature values. Identifiers outside the signed 64-bit range are modelled: they make the conversion fail.
- GraphFile.LoadGraph: it inherits `NxGraph.NxToPyg`'s exact feature values. A file whose integer attributes exceed 2^24 loads in the model with the exact values, where the code stores rounded float32 values or raises. A node identifier outside the signed 64-bit range makes the model's load fail, as `load_graph` fails on the uncaught exception.
- The "None" string stored as `mol` is `None` in the model. The rest of the `mol` object is not inspected.
- `print` calls and progress bars: these are output only.
- `preprocess/image_handler.py` and `preprocess/text_handler.py` are not part of this model. One does image loading through library calls. The other does JSON loading and hands formulas to `process_formula`, which is modelled.
- Regular expressions in `process_formula`: each `re.match` with a one-character class becomes the matching ASCII character test. `re.match('[a-zA-Z]+', t)` becomes "the first character of t is an ASCII letter".
