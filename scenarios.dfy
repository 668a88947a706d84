/**
 * Concrete update cycles: what one walk, or a chain of walks sharing their
 * memory, produces for small documents. Letters are arbitrary code units.
 */
module Scenarios {
  import opened Detector

  /** The walk over a one-node document is one call of the callback. */
  lemma WalkSingle(mem: Memory, leaf: Leaf, style: Style)
    ensures Walk(mem, [leaf], style) == Visit(WalkResult([], mem), leaf, style)
  {
    WalkSnoc(mem, [], leaf, style);
    assert [] + [leaf] == [leaf];
  }

  /** Appending a character to "ab" decorates exactly the new third character. */
  lemma AppendedCharacter(p: nat, a: CodeUnit, b: CodeUnit, c: CodeUnit, style: Style)
    ensures var w := Walk(map[p := [a, b]], [Leaf(p, [a, b, c], true)], style);
            w.decorations == [Decoration(p + 2, p + 3, style)] && w.memory == map[p := [a, b, c]]
  {
    WalkSingle(map[p := [a, b]], Leaf(p, [a, b, c], true), style);
  }

  /** A shrinking node gets no decoration, but its new text is remembered. */
  lemma ShrinkNotDecorated(p: nat, a: CodeUnit, b: CodeUnit, c: CodeUnit, style: Style)
    ensures var w := Walk(map[p := [a, b, c]], [Leaf(p, [a, b], true)], style);
            w.decorations == [] && w.memory == map[p := [a, b]]
  {
    WalkSingle(map[p := [a, b, c]], Leaf(p, [a, b], true), style);
  }

  /** Rewriting a character without changing the length gets no decoration. */
  lemma SameLengthRewriteNotDecorated(p: nat, a: CodeUnit, b: CodeUnit, c: CodeUnit, d: CodeUnit, style: Style)
    ensures var w := Walk(map[p := [a, b, c]], [Leaf(p, [a, b, d], true)], style);
            w.decorations == [] && w.memory == map[p := [a, b, d]]
  {
    WalkSingle(map[p := [a, b, c]], Leaf(p, [a, b, d], true), style);
  }

  /** Of two nodes, only the one that grew is decorated. */
  lemma OnlyGrowingNodeDecorated(p: nat, q: nat, a: CodeUnit, b: CodeUnit, c: CodeUnit, x: CodeUnit, y: CodeUnit, style: Style)
    requires p + 3 <= q
    ensures var w := Walk(map[p := [a, b], q := [x, y]], [Leaf(p, [a, b, c], true), Leaf(q, [x, y], true)], style);
            w.decorations == [Decoration(p + 2, p + 3, style)]
  {
    var mem := map[p := [a, b], q := [x, y]];
    WalkSingle(mem, Leaf(p, [a, b, c], true), style);
    WalkSnoc(mem, [Leaf(p, [a, b, c], true)], Leaf(q, [x, y], true), style);
    assert Previous(mem[p := [a, b, c]], q) == [x, y];
  }

  /** Nodes without text, such as the paragraph around the text, are passed over. */
  lemma NonTextNodeIgnored(p: nat, h: CodeUnit, style: Style)
    ensures var w := Walk(map[], [Leaf(p, [], false), Leaf(p + 1, [h], true)], style);
            w.decorations == [Decoration(p + 1, p + 2, style)] && w.memory == map[p + 1 := [h]]
  {
    WalkSingle(map[], Leaf(p, [], false), style);
    WalkSnoc(map[], [Leaf(p, [], false)], Leaf(p + 1, [h], true), style);
  }

  /** A pasted run of characters gets one decoration, over the first character pasted. */
  lemma PasteDecoratesFirstNewCharacter(p: nat, a: CodeUnit, b: CodeUnit, c: CodeUnit, d: CodeUnit, style: Style)
    ensures var w := Walk(map[p := [a]], [Leaf(p, [a, b, c, d], true)], style);
            w.decorations == [Decoration(p + 1, p + 2, style)]
  {
    WalkSingle(map[p := [a]], Leaf(p, [a, b, c, d], true), style);
  }

  /**
   * A character outside the Basic Multilingual Plane is two code units:
   * after U+1F600 (the surrogate pair D83D DE00), a typed "a" is decorated
   * two positions past the node's start.
   */
  lemma SurrogatePairCountsTwo(p: nat, style: Style)
    ensures var w := Walk(map[p := [0xD83D, 0xDE00]], [Leaf(p, [0xD83D, 0xDE00, 0x61], true)], style);
            w.decorations == [Decoration(p + 2, p + 3, style)]
  {
    WalkSingle(map[p := [0xD83D, 0xDE00]], Leaf(p, [0xD83D, 0xDE00, 0x61], true), style);
  }

  /**
   * Typing "H", then "i", then clearing the node and typing "H" again. The
   * empty node is not observed, so its old text stays remembered and the
   * retyped "H" is not decorated.
   */
  lemma TypeClearRetype(p: nat, h: CodeUnit, i: CodeUnit, style: Style)
    ensures var w1 := Walk(map[], [Leaf(p, [h], true)], style);
            var w2 := Walk(w1.memory, [Leaf(p, [h, i], true)], style);
            var w3 := Walk(w2.memory, [Leaf(p, [], true)], style);
            var w4 := Walk(w3.memory, [Leaf(p, [h], true)], style);
            && w1.decorations == [Decoration(p, p + 1, style)]
            && w2.decorations == [Decoration(p + 1, p + 2, style)]
            && w3.decorations == [] && w3.memory == map[p := [h, i]]
            && w4.decorations == [] && w4.memory == map[p := [h]]
  {
    WalkSingle(map[], Leaf(p, [h], true), style);
    WalkSingle(map[p := [h]], Leaf(p, [h, i], true), style);
    WalkSingle(map[p := [h, i]], Leaf(p, [], true), style);
    WalkSingle(map[p := [h, i]], Leaf(p, [h], true), style);
  }
}
