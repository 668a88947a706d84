/**
 * One pass of the typed-character detector, as pure functions.
 *
 * A document is the sequence of nodes that the host's depth-first walk
 * visits, each with its absolute position. The walk looks every non-empty
 * text node up in the remembered contents, emits a one-character
 * decoration where the node grew, and remembers the node's current text.
 */
module Detector {
  import opened Easing

  /**
   * A UTF-16 code unit. Text lengths and document positions count code
   * units, so a character outside the Basic Multilingual Plane counts two.
   */
  newtype CodeUnit = x: int | 0 <= x < 0x1_0000

  /** The text of a node, as a sequence of code units. */
  type Text = seq<CodeUnit>

  /** A node of the document as the walk visits it. `text` is empty for a node without text. */
  datatype Leaf = Leaf(pos: nat, text: Text, isText: bool)

  /** The inline style of a decoration: the fade-in animation with its duration and curve. */
  datatype Style = FadeIn(duration: real, easing: string)

  /** An inline decoration over positions `from` (inclusive) to `to` (exclusive). */
  datatype Decoration = Decoration(from: nat, to: nat, style: Style)

  /** The remembered text of each node, keyed by the node's position. */
  type Memory = map<nat, Text>

  /** The set of decorations the view shows; here the list it was created from. */
  datatype DecorationSet = DecorationSet(decorations: seq<Decoration>)

  /** The set with no decorations. */
  const Empty: DecorationSet := DecorationSet([])

  /** What a walk leaves behind: the decorations it built and the memory it updated. */
  datatype WalkResult = WalkResult(decorations: seq<Decoration>, memory: Memory)

  /** The style every decoration of a cycle carries. */
  function StyleFor(options: FluidTypingOptions): Style {
    FadeIn(options.animationDuration, EasingFunction(options.animationEase))
  }

  /** The text last remembered at `pos`; a missing entry reads as the empty text. */
  function Previous(mem: Memory, pos: nat): Text {
    if pos in mem && mem[pos] != [] then mem[pos] else []
  }

  /** The walk only looks at text nodes with some text in them. */
  predicate Observed(leaf: Leaf) {
    leaf.isText && leaf.text != []
  }

  /** A node grew: it is observed and is longer than what is remembered at its position. */
  predicate Grown(mem: Memory, leaf: Leaf) {
    Observed(leaf) && |leaf.text| > |Previous(mem, leaf.pos)|
  }

  /** The decoration over the first character past the remembered text. */
  function NewCharDecoration(mem: Memory, leaf: Leaf, style: Style): Decoration {
    var at := leaf.pos + |Previous(mem, leaf.pos)|;
    Decoration(at, at + 1, style)
  }

  /** One call of the walk's callback, on the state the earlier calls left. */
  function Visit(w: WalkResult, leaf: Leaf, style: Style): WalkResult {
    if !Observed(leaf) then w
    else
      var built := if Grown(w.memory, leaf) then [NewCharDecoration(w.memory, leaf, style)] else [];
      WalkResult(w.decorations + built, w.memory[leaf.pos := leaf.text])
  }

  /** The whole walk over `doc`, in document order, starting from memory `mem`. */
  function Walk(mem: Memory, doc: seq<Leaf>, style: Style): (w: WalkResult)
    ensures |w.decorations| <= |doc|
    decreases |doc|
  {
    if doc == [] then WalkResult([], mem)
    else Visit(Walk(mem, doc[..|doc| - 1], style), doc[|doc| - 1], style)
  }

  /** Walking one more leaf is one more call of the callback. */
  lemma WalkPrefixStep(mem: Memory, doc: seq<Leaf>, style: Style, i: nat)
    requires i < |doc|
    ensures Walk(mem, doc[..i + 1], style) == Visit(Walk(mem, doc[..i], style), doc[i], style)
  {
    assert doc[..i + 1][..i] == doc[..i];
  }

  /** Walking a document extended by one leaf is one more call of the callback. */
  lemma WalkSnoc(mem: Memory, doc: seq<Leaf>, leaf: Leaf, style: Style)
    ensures Walk(mem, doc + [leaf], style) == Visit(Walk(mem, doc, style), leaf, style)
  {
    assert (doc + [leaf])[..|doc|] == doc;
  }

  /** Leaves that are visited at most once: no two observed leaves share a position. */
  ghost predicate DistinctPositions(doc: seq<Leaf>) {
    forall i, j :: 0 <= i < j < |doc| && Observed(doc[i]) && Observed(doc[j]) ==> doc[i].pos != doc[j].pos
  }

  /** Observed leaves come in document order without overlapping, as text nodes of a tree do. */
  ghost predicate TextInOrder(doc: seq<Leaf>) {
    forall i, j :: 0 <= i < j < |doc| && Observed(doc[i]) && Observed(doc[j]) ==>
      doc[i].pos + |doc[i].text| <= doc[j].pos
  }

  // ---------------------------------------------------------------------
  // Reference definition: every leaf judged against the memory as it was
  // before the walk.
  // ---------------------------------------------------------------------

  /** The leaves of `doc` that grew with respect to `mem`, in document order. */
  function Growing(mem: Memory, doc: seq<Leaf>): (g: seq<Leaf>)
    ensures |g| <= |doc|
    ensures forall x :: x in g <==> x in doc && Grown(mem, x)
    decreases |doc|
  {
    if doc == [] then []
    else
      var last := doc[|doc| - 1];
      assert doc == doc[..|doc| - 1] + [last];
      Growing(mem, doc[..|doc| - 1]) + if Grown(mem, last) then [last] else []
  }

  /** One decoration per growing leaf, in the order of the leaves. */
  function Expected(mem: Memory, doc: seq<Leaf>, style: Style): seq<Decoration> {
    var g := Growing(mem, doc);
    seq(|g|, i requires 0 <= i < |g| => NewCharDecoration(mem, g[i], style))
  }

  lemma ExpectedSnoc(mem: Memory, doc: seq<Leaf>, style: Style)
    requires doc != []
    ensures Expected(mem, doc, style) ==
            Expected(mem, doc[..|doc| - 1], style) +
            (if Grown(mem, doc[|doc| - 1]) then [NewCharDecoration(mem, doc[|doc| - 1], style)] else [])
  {
  }

  // ---------------------------------------------------------------------
  // Memory after the walk
  // ---------------------------------------------------------------------

  /** Every observed leaf's position holds that leaf's current text after the walk. */
  lemma {:induction false} WalkRemembersVisited(mem: Memory, doc: seq<Leaf>, style: Style, k: nat)
    requires DistinctPositions(doc)
    requires k < |doc| && Observed(doc[k])
    ensures doc[k].pos in Walk(mem, doc, style).memory
    ensures Walk(mem, doc, style).memory[doc[k].pos] == doc[k].text
    decreases |doc|
  {
    var n := |doc| - 1;
    var init := doc[..n];
    if k < n {
      DistinctPrefix(doc);
      assert init[k] == doc[k];
      WalkRemembersVisited(mem, init, style, k);
      assert Observed(doc[n]) ==> doc[n].pos != doc[k].pos;
    }
  }

  /** No observed leaf of `doc` sits at position `p`. */
  ghost predicate Unvisited(doc: seq<Leaf>, p: nat) {
    forall k :: 0 <= k < |doc| && Observed(doc[k]) ==> doc[k].pos != p
  }

  /** A position that no observed leaf has keeps its entry, or its absence. */
  lemma {:induction false} WalkKeepsUnvisited(mem: Memory, doc: seq<Leaf>, style: Style, p: nat)
    requires Unvisited(doc, p)
    ensures p in Walk(mem, doc, style).memory <==> p in mem
    ensures p in mem ==> Walk(mem, doc, style).memory[p] == mem[p]
    decreases |doc|
  {
    if doc != [] {
      var n := |doc| - 1;
      var init := doc[..n];
      forall k | 0 <= k < |init| && Observed(init[k]) ensures init[k].pos != p {
        assert init[k] == doc[k];
      }
      WalkKeepsUnvisited(mem, init, style, p);
    }
  }

  /** The walk adds keys only at the positions of observed leaves. */
  lemma WalkMemoryKeys(mem: Memory, doc: seq<Leaf>, style: Style, p: nat)
    requires p in Walk(mem, doc, style).memory
    ensures p in mem || exists k :: 0 <= k < |doc| && Observed(doc[k]) && doc[k].pos == p
  {
    if Unvisited(doc, p) {
      WalkKeepsUnvisited(mem, doc, style, p);
    }
  }

  // ---------------------------------------------------------------------
  // Decorations of the walk
  // ---------------------------------------------------------------------

  /**
   * With distinct positions, the walk judges every leaf against the memory
   * as it stood before the walk: its decorations are exactly the reference
   * ones, one per growing leaf, in document order.
   */
  lemma {:induction false} WalkMatchesExpected(mem: Memory, doc: seq<Leaf>, style: Style)
    requires DistinctPositions(doc)
    ensures Walk(mem, doc, style).decorations == Expected(mem, doc, style)
    decreases |doc|
  {
    if doc != [] {
      var n := |doc| - 1;
      var init := doc[..n];
      var last := doc[n];
      DistinctPrefix(doc);
      WalkMatchesExpected(mem, init, style);
      ExpectedSnoc(mem, doc, style);
      var w0 := Walk(mem, init, style);
      if Observed(last) {
        WalkKeepsUnvisited(mem, init, style, last.pos);
        assert Previous(w0.memory, last.pos) == Previous(mem, last.pos);
        assert Grown(w0.memory, last) == Grown(mem, last);
        assert NewCharDecoration(w0.memory, last, style) == NewCharDecoration(mem, last, style);
      }
    }
  }

  /** Dropping the last leaf keeps positions distinct, and no observed leaf before it shares its position. */
  lemma DistinctPrefix(doc: seq<Leaf>)
    requires DistinctPositions(doc) && doc != []
    ensures DistinctPositions(doc[..|doc| - 1])
    ensures Observed(doc[|doc| - 1]) ==> Unvisited(doc[..|doc| - 1], doc[|doc| - 1].pos)
  {
    var init := doc[..|doc| - 1];
    forall i, j | 0 <= i < j < |init| && Observed(init[i]) && Observed(init[j])
      ensures init[i].pos != init[j].pos
    {
      assert init[i] == doc[i] && init[j] == doc[j];
    }
    forall k | 0 <= k < |init| && Observed(init[k]) && Observed(doc[|doc| - 1])
      ensures init[k].pos != doc[|doc| - 1].pos
    {
      assert init[k] == doc[k];
    }
  }

  /**
   * The decorations are one per growing leaf, in walk order: the i-th
   * covers the first new character of the i-th growing leaf.
   */
  lemma DecorationsOfGrowingLeaves(mem: Memory, doc: seq<Leaf>, style: Style)
    requires DistinctPositions(doc)
    ensures var decos := Walk(mem, doc, style).decorations;
            var g := Growing(mem, doc);
            |decos| == |g| &&
            forall i :: 0 <= i < |g| ==>
              && decos[i] == NewCharDecoration(mem, g[i], style)
              && decos[i].from == g[i].pos + |Previous(mem, g[i].pos)|
              && decos[i].to == decos[i].from + 1
              && g[i].pos <= decos[i].from && decos[i].to <= g[i].pos + |g[i].text|
  {
    WalkMatchesExpected(mem, doc, style);
    forall i | 0 <= i < |Growing(mem, doc)| ensures Grown(mem, Growing(mem, doc)[i]) {
      assert Growing(mem, doc)[i] in Growing(mem, doc);
    }
  }

  /**
   * A leaf of `doc` that grew contributes its decoration, and every
   * decoration is the one of a leaf that grew.
   */
  lemma LeafDecoratedIffGrown(mem: Memory, doc: seq<Leaf>, style: Style, k: nat)
    requires DistinctPositions(doc)
    requires k < |doc|
    ensures Grown(mem, doc[k]) ==> NewCharDecoration(mem, doc[k], style) in Walk(mem, doc, style).decorations
    ensures forall d :: d in Walk(mem, doc, style).decorations ==>
              exists j :: 0 <= j < |doc| && Grown(mem, doc[j]) && d == NewCharDecoration(mem, doc[j], style)
  {
    WalkMatchesExpected(mem, doc, style);
    var g := Growing(mem, doc);
    if Grown(mem, doc[k]) {
      var i :| 0 <= i < |g| && g[i] == doc[k];
      assert Expected(mem, doc, style)[i] == NewCharDecoration(mem, doc[k], style);
    }
    forall d | d in Walk(mem, doc, style).decorations
      ensures exists j :: 0 <= j < |doc| && Grown(mem, doc[j]) && d == NewCharDecoration(mem, doc[j], style)
    {
      var i :| 0 <= i < |g| && d == Expected(mem, doc, style)[i];
      assert g[i] in g;
      var j :| 0 <= j < |doc| && doc[j] == g[i];
    }
  }

  /** Some decoration is built exactly when some leaf grew. */
  lemma DecoratesIffSomeLeafGrew(mem: Memory, doc: seq<Leaf>, style: Style)
    requires DistinctPositions(doc)
    ensures |Walk(mem, doc, style).decorations| > 0 <==> exists k :: 0 <= k < |doc| && Grown(mem, doc[k])
  {
    WalkMatchesExpected(mem, doc, style);
    var g := Growing(mem, doc);
    if |g| > 0 {
      assert g[0] in g;
    }
    if exists k :: 0 <= k < |doc| && Grown(mem, doc[k]) {
      var k :| 0 <= k < |doc| && Grown(mem, doc[k]);
      assert doc[k] in g;
    }
  }

  /** Walking the same document again right after a walk decorates nothing. */
  lemma RewalkDecoratesNothing(mem: Memory, doc: seq<Leaf>, style: Style)
    requires DistinctPositions(doc)
    ensures Walk(Walk(mem, doc, style).memory, doc, style).decorations == []
  {
    var mem1 := Walk(mem, doc, style).memory;
    WalkMatchesExpected(mem1, doc, style);
    var g := Growing(mem1, doc);
    if g != [] {
      assert g[0] in g;
      var k :| 0 <= k < |doc| && doc[k] == g[0];
      WalkRemembersVisited(mem, doc, style, k);
      assert false;
    }
  }

  /**
   * Decoration `d` is the one the visit of leaf `k` built: the leaf had grown
   * with respect to the memory the walk over `doc[..k]` left, and `d` covers
   * the first character past that remembered text, inside the leaf's text.
   */
  ghost predicate BuiltBy(mem: Memory, doc: seq<Leaf>, style: Style, k: nat, d: Decoration) {
    && k < |doc|
    && var before := Walk(mem, doc[..k], style).memory;
    && Grown(before, doc[k])
    && d == NewCharDecoration(before, doc[k], style)
    && d.to == d.from + 1
    && doc[k].pos <= d.from && d.to <= doc[k].pos + |doc[k].text|
  }

  /** A leaf of a prefix keeps building the same decoration in the longer document. */
  lemma BuiltByExtends(mem: Memory, doc: seq<Leaf>, style: Style, n: nat, k: nat, d: Decoration)
    requires n <= |doc| && BuiltBy(mem, doc[..n], style, k, d)
    ensures BuiltBy(mem, doc, style, k, d)
  {
    assert doc[..n][..k] == doc[..k];
  }

  /**
   * Every decoration was built by the visit of one observed leaf that had
   * grown with respect to the memory as that visit found it. It covers the
   * first character past the remembered text, which lies inside that
   * leaf's own text. This holds of any document, distinct positions or not.
   */
  lemma {:induction false} DecorationsInsideLeaves(mem: Memory, doc: seq<Leaf>, style: Style, i: nat)
    requires i < |Walk(mem, doc, style).decorations|
    ensures exists k :: BuiltBy(mem, doc, style, k, Walk(mem, doc, style).decorations[i])
    decreases |doc|
  {
    var n := |doc| - 1;
    var init := doc[..n];
    var w0 := Walk(mem, init, style);
    var d := Walk(mem, doc, style).decorations[i];
    if i < |w0.decorations| {
      assert d == w0.decorations[i];
      DecorationsInsideLeaves(mem, init, style, i);
      var k :| BuiltBy(mem, init, style, k, d);
      BuiltByExtends(mem, doc, style, n, k, d);
    } else {
      assert d == NewCharDecoration(w0.memory, doc[n], style);
      assert BuiltBy(mem, doc, style, n, d);
    }
  }

  /** Decorations of the reference list lie inside growing leaves of `doc`. */
  lemma ExpectedInsideLeaf(mem: Memory, doc: seq<Leaf>, style: Style, i: nat)
    requires i < |Expected(mem, doc, style)|
    ensures var d := Expected(mem, doc, style)[i];
            exists k :: 0 <= k < |doc| && Observed(doc[k]) && doc[k].pos <= d.from && d.to <= doc[k].pos + |doc[k].text|
  {
    var g := Growing(mem, doc);
    assert g[i] in g;
    var k :| 0 <= k < |doc| && doc[k] == g[i];
  }

  /**
   * When the text leaves are in document order and do not overlap, the
   * decorations come out sorted and pairwise disjoint.
   */
  lemma {:induction false} DecorationsSorted(mem: Memory, doc: seq<Leaf>, style: Style)
    requires TextInOrder(doc)
    ensures var decos := Walk(mem, doc, style).decorations;
            forall i, j :: 0 <= i < j < |decos| ==> decos[i].to <= decos[j].from
    decreases |doc|
  {
    assert DistinctPositions(doc);
    WalkMatchesExpected(mem, doc, style);
    ExpectedSorted(mem, doc, style);
  }

  lemma {:induction false} ExpectedSorted(mem: Memory, doc: seq<Leaf>, style: Style)
    requires TextInOrder(doc)
    ensures var decos := Expected(mem, doc, style);
            forall i, j :: 0 <= i < j < |decos| ==> decos[i].to <= decos[j].from
    decreases |doc|
  {
    if doc != [] {
      var n := |doc| - 1;
      var init := doc[..n];
      var last := doc[n];
      assert TextInOrder(init) by {
        forall i, j | 0 <= i < j < |init| && Observed(init[i]) && Observed(init[j])
          ensures init[i].pos + |init[i].text| <= init[j].pos
        {
          assert init[i] == doc[i] && init[j] == doc[j];
        }
      }
      ExpectedSorted(mem, init, style);
      ExpectedSnoc(mem, doc, style);
      var e0 := Expected(mem, init, style);
      var decos := Expected(mem, doc, style);
      if Grown(mem, last) {
        forall i | 0 <= i < |e0| ensures e0[i].to <= decos[|e0|].from {
          ExpectedInsideLeaf(mem, init, style, i);
          var k :| 0 <= k < |init| && Observed(init[k]) && init[k].pos <= e0[i].from && e0[i].to <= init[k].pos + |init[k].text|;
          assert init[k] == doc[k];
        }
      }
    }
  }
}
