/**
 * The state a plugin instance keeps between view updates, and the update
 * callback that runs after every state change of the editor view.
 */
module FluidTyping {
  import opened Wrappers
  import opened Easing
  import opened Detector

  class FluidTypingPlugin {
    /** The options read when the plugin was created. */
    const options: FluidTypingOptions
    /** The text last seen at each text node position. */
    var lastContent: Memory
    /** The decoration set most recently built by an update. */
    var decorationSet: DecorationSet

    constructor (options: FluidTypingOptions)
      ensures this.options == options
      ensures lastContent == map[] && decorationSet == Empty
    {
      this.options := options;
      lastContent := map[];
      decorationSet := Empty;
    }

    /**
     * The view's update callback. `docUnchanged` is the host's structural
     * comparison of the previous and the current document; `doc` lists the
     * current document's nodes in walk order. The result is the decoration
     * set placed in the metadata of the dispatched transaction, or None when
     * nothing is dispatched.
     */
    method Update(docUnchanged: bool, doc: seq<Leaf>) returns (dispatched: Option<DecorationSet>)
      modifies this
      ensures docUnchanged ==>
                lastContent == old(lastContent) && decorationSet == old(decorationSet) && dispatched == None
      ensures !docUnchanged ==>
                var w := Walk(old(lastContent), doc, StyleFor(options));
                && lastContent == w.memory
                && (|w.decorations| > 0 ==> decorationSet == DecorationSet(w.decorations) && dispatched == Some(decorationSet))
                && (|w.decorations| == 0 ==> decorationSet == Empty && dispatched == None)
    {
      if docUnchanged {
        return None;
      }
      decorationSet := Empty;
      var decos: seq<Decoration> := [];
      var style := StyleFor(options);
      ghost var mem0 := lastContent;
      var i := 0;
      while i < |doc|
        invariant 0 <= i <= |doc|
        invariant decos == Walk(mem0, doc[..i], style).decorations
        invariant lastContent == Walk(mem0, doc[..i], style).memory
        modifies this`lastContent
      {
        var node := doc[i];
        WalkPrefixStep(mem0, doc, style, i);
        ghost var next := Visit(WalkResult(decos, lastContent), node, style);
        if node.isText && node.text != [] {
          var currentText := node.text;
          var previousText := if node.pos in lastContent && lastContent[node.pos] != [] then lastContent[node.pos] else [];
          assert previousText == Previous(lastContent, node.pos);
          if |currentText| > |previousText| {
            var newCharPos := node.pos + |previousText|;
            decos := decos + [Decoration(newCharPos, newCharPos + 1, style)];
          }
          lastContent := lastContent[node.pos := currentText];
        }
        assert decos == next.decorations && lastContent == next.memory;
        i := i + 1;
      }
      assert doc[..|doc|] == doc;
      if |decos| > 0 {
        decorationSet := DecorationSet(decos);
        dispatched := Some(decorationSet);
      } else {
        dispatched := None;
      }
    }
  }
}
