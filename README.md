# Fluid typing: a verified model of the typed-character detector

The Tiptap extension `tiptap-extension-fluid-typing` animates characters as
they are typed. It installs one ProseMirror plugin. After every state change
of the editor view, the plugin's view `update` callback runs. If the new
document equals the previous one (`doc.eq`), it returns at once. Otherwise
it walks the text nodes of the new document. It compares each node with the text it last saw at the
same position, kept in the map `lastContent`. For every node that got longer,
it builds one inline decoration over the first character past the remembered
text. It then stores the node's current text. When at least one decoration
was built, it dispatches a transaction whose metadata carries the new
decoration set. The plugin's state `apply` installs a set carried in
metadata, maps the old set through a document-changing transaction, and
otherwise keeps the old set.

The model, module by module:

- `Easing` (easing.dfy): the easing table as a total function from the
  `AnimationEase` enumeration to its CSS timing function, the table's keys,
  and the option record. `ParseEase` states which names the compile-time
  type `AnimationEase` admits; nothing checks that type at run time.
- `Detector` (detector.dfy): one run of the walk as pure functions. `Visit`
  is one call of the `descendants` callback and `Walk` is the whole walk.
  `Growing` and `Expected` are a reference definition, in which every node is
  judged against the memory as it stood before the walk. The lemmas relate
  the walk to the reference and state what the walk does to the decorations
  and to the memory.
- `FluidTyping` (fluid_typing.dfy): the class `FluidTypingPlugin` holds the
  per-plugin closure state (`lastContent`, `decorationSet`, the options).
  Its `Update` method is the view's `update` callback, written as a loop over
  the document's nodes. It is proved equal to `Walk`.
- `PluginState` (plugin_state.dfy): `Init` and `Apply` of the plugin state.
  `Replay` applies a history of transactions. Two lemmas give the committed
  set after any history. If some set was supplied, it is the last one
  supplied, mapped through the later edits. If none was, it is the initial
  set mapped through every edit.
- `Scenarios` (scenarios.dfy): concrete cycles: append, shrink, rewrite,
  two nodes, a non-text node, a paste, a surrogate pair, and
  type/clear/retype.

Text is a sequence of UTF-16 code units (`Detector.CodeUnit`), as in
JavaScript. Lengths and positions count code units, so a character outside
the Basic Multilingual Plane counts two (`Scenarios.SurrogatePairCountsTwo`).

Inputs supplied by the host are parameters. A document is the sequence of
`Leaf(pos, text, isText)` values that `descendants` visits in document order;
a node without text has `text == ""`. The structural comparison
`prevState.doc.eq(state.doc)` is the boolean `docUnchanged`. A
transaction's position mapping is an opaque function on decoration sets. The
dispatch is the method's result: the set placed in the transaction's
metadata, or `None` when nothing is dispatched.

Behaviour of the code worth noting (src/index.ts):

- An empty text node is skipped (`!node.text`, line 135). Its memory entry is
  left alone. So clearing a node does not store `""`, and retyping the same
  first character afterwards is not animated (`Scenarios.TypeClearRetype`).
- A bulk insertion is decorated at `pos + previousText.length` (line 142).
  That is the FIRST new character, not the last one
  (`Scenarios.PasteDecoratesFirstNewCharacter`).
- A remembered empty text reads like a missing entry (`|| ""`, line 138). Both
  count as no prior content (`Detector.Previous`).
- The code has no guard against an insertion point outside its node's text,
  and needs none: `Detector.DecorationsInsideLeaves` proves that the growth
  test keeps every decoration inside the text of the node that built it.
- The closure variable `decorationSet` is reset to the empty set on every
  update whose document changed (line 130), even when nothing is then built.

## Model

| member | source | states |
|---|---|---|
| `Easing.EasingFunction` | src/index.ts:18-40 | The five CSS keyword curves map to their own key. Every other curve maps to a `cubic-bezier(...)` value. |
| `Easing.ParseEase` | src/index.ts:45 | A name is accepted only as the key of the curve it denotes. |
| `Easing.ParseKeyRoundTrip` | src/index.ts:18-45 | Every key of the table denotes exactly its own curve. |
| `Easing.KeyInjective` | src/index.ts:18-45 | Distinct curves have distinct keys, so the key union has one member per curve. |
| `Detector.Walk` | src/index.ts:134-157 | A walk builds at most one decoration per node. |
| `Detector.Growing` | src/index.ts:135-141 | A node is among the growing nodes iff it is in the document, is a non-empty text node, and is longer than the text remembered at its position (a missing entry counts as ""). |
| `Detector.WalkMatchesExpected` | src/index.ts:134-157 | With distinct node positions, the walk's decorations are exactly the reference list: one per growing node, judged against the memory from before the walk, in document order. |
| `Detector.DecorationsOfGrowingLeaves` | src/index.ts:141-147 | The number of decorations equals the number of growing nodes. The i-th decoration starts at `pos` plus the length of the previous text of the i-th growing node, spans one position, and lies inside that node's own text. |
| `Detector.LeafDecoratedIffGrown` | src/index.ts:135-147 | A node that grew has its one-character decoration in the result. Conversely, every decoration in the result is the decoration of some node that grew. |
| `Detector.DecoratesIffSomeLeafGrew` | src/index.ts:141-160 | At least one decoration is built iff some node grew. |
| `Detector.DecorationsInsideLeaves` | src/index.ts:141-147 | Every decoration was built by the visit of one node that had grown with respect to the memory that visit found. It is that node's one-character decoration at `pos` plus the remembered length, and it lies inside that node's own text: `pos <= from`, and `to` is at most `pos` plus the text's length. This holds for any document. |
| `Detector.DecorationsSorted` | src/index.ts:134-147 | When text nodes come in document order without overlapping, the decorations are sorted and pairwise disjoint. |
| `Detector.WalkRemembersVisited` | src/index.ts:156 | After the walk, every non-empty text node's position holds that node's current text, grown or not. |
| `Detector.WalkKeepsUnvisited` | src/index.ts:135-156 | A position where no non-empty text node sits keeps its old entry, or stays absent. |
| `Detector.WalkMemoryKeys` | src/index.ts:156 | The walk adds memory keys only at positions of non-empty text nodes. |
| `Detector.RewalkDecoratesNothing` | src/index.ts:138-156 | Walking the same document again right after a walk builds no decoration. |
| `FluidTyping.FluidTypingPlugin.constructor` | src/index.ts:94-116 | A new plugin starts with an empty memory and the empty decoration set, and keeps the given options. |
| `FluidTyping.FluidTypingPlugin.Update` | src/index.ts:124-166 | If the document is unchanged, the memory and the set are untouched and nothing is dispatched. Otherwise the memory becomes the walk's memory. The set and the dispatch are the walk's decorations if any were built; otherwise the set is empty and nothing is dispatched. |
| `PluginState.Init` | src/index.ts:171-173 | The plugin state starts with no decorations. |
| `PluginState.Dispatch` | src/index.ts:162-164 | The dispatched transaction supplies exactly the new set and does not change the document. |
| `PluginState.Apply` | src/index.ts:174-183 | A supplied set becomes the state. Otherwise, a document change maps the old state through the edit, and any other transaction keeps the old state. |
| `PluginState.ChangedDocMapsState` | src/index.ts:179-180 | A transaction that supplies no set but changes the document yields the old state mapped through the edit. |
| `PluginState.SuppliedSetReplacesState` | src/index.ts:175-178 | A transaction that supplies a set makes that set the state, whatever the old state was. |
| `PluginState.DispatchCommits` | src/index.ts:160-178 | The set an update dispatches is the plugin state right after the dispatch. |
| `PluginState.IdleTransactionKeepsState` | src/index.ts:179-182 | A transaction with no set that leaves the document unchanged keeps the old state. |
| `PluginState.ReplayWithoutSupplied` | src/index.ts:174-183 | Over a history with no supplied set, the state is the initial set mapped through every document change, in order; it is never dropped. |
| `PluginState.ReplayAfterLastSupplied` | src/index.ts:174-183 | After a history that supplies some set, the state is the last supplied set mapped through the document changes that followed it. |
| `Scenarios.AppendedCharacter` | src/index.ts:138-156 | "ab" changed to "abc" at p: one decoration over [p+2, p+3), and "abc" is remembered. |
| `Scenarios.ShrinkNotDecorated` | src/index.ts:141-156 | "abc" changed to "ab": no decoration, and "ab" is remembered. |
| `Scenarios.SameLengthRewriteNotDecorated` | src/index.ts:141-156 | "abc" changed to "abd": no decoration, and "abd" is remembered. |
| `Scenarios.OnlyGrowingNodeDecorated` | src/index.ts:134-157 | Of a growing node and an unchanged node, only the growing one is decorated. |
| `Scenarios.NonTextNodeIgnored` | src/index.ts:135 | A non-text node is passed over; the text node after it is decorated and remembered. |
| `Scenarios.PasteDecoratesFirstNewCharacter` | src/index.ts:141-147 | "a" changed to "abcd": one decoration, over the first pasted character. |
| `Scenarios.SurrogatePairCountsTwo` | src/index.ts:141-147 | After a surrogate pair, a typed character is decorated at [p+2, p+3): lengths count UTF-16 code units. |
| `Scenarios.TypeClearRetype` | src/index.ts:135-156 | "H" is decorated at [p, p+1) and "Hi" at [p+1, p+2). Clearing the node leaves "Hi" remembered, so the retyped "H" is not decorated. |

## Left out

- Creating, injecting and removing the `<style>` element that holds the keyframes (lines 98-111, 193): browser side effects with no logic.
- `Extension.create`, `addOptions` with its defaults (0.2 seconds, "ease-out"), the plugin key and the `decorations` prop, which only returns the plugin state (lines 82-92, 95, 118-121, 186-190): framework wiring.
- ProseMirror itself. The tree walk `descendants` is a given sequence of nodes. `doc.eq` is a given boolean. `DecorationSet.create` keeps its list as given; its internal tree and ordering are not modelled. `DecorationSet.map` is an opaque function carried by the transaction. `setMeta`/`getMeta` are the metadata field of a transaction, and `view.dispatch` is returned as a value.
- The CSS text of the style attribute and the formatting of the duration (lines 148-151): presentation only. A decoration's style is the pair of the duration and the easing curve's CSS value. The duration is an exact `real`, not a floating-point number.
- The memory is keyed by position, as in the source. Stale entries for positions a document no longer has are kept and never evicted, as in the source.
- `Detector.WalkMatchesExpected`, `Detector.DecorationsOfGrowingLeaves`, `Detector.LeafDecoratedIffGrown`, `Detector.DecoratesIffSomeLeafGrew`, `Detector.WalkRemembersVisited` and `Detector.RewalkDecoratesNothing` are stated only for documents whose non-empty text nodes have distinct positions. Every ProseMirror document has this property. Without it, a later node would be compared with text an earlier node had just stored.
- `Detector.DecorationsSorted`: stated for documents whose text nodes come in increasing, non-overlapping order, as text nodes of a ProseMirror document do.
