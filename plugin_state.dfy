/**
 * The plugin's slot in the editor state: the decoration set the view
 * renders, carried from one transaction to the next.
 */
module PluginState {
  import opened Wrappers
  import opened Detector

  /** The metadata this plugin attaches to a transaction under its own key. */
  datatype Meta = Meta(decorationSet: Option<DecorationSet>)

  /**
   * What `apply` sees of a transaction: this plugin's metadata, whether the
   * transaction changed the document, and how it moves decorations along
   * with the edit (supplied by the host, opaque here).
   */
  datatype Transaction = Transaction(meta: Option<Meta>, docChanged: bool, mapping: DecorationSet -> DecorationSet)

  /** The decoration set a transaction supplies, if it carries one. */
  function Supplied(tr: Transaction): Option<DecorationSet> {
    if tr.meta.Some? && tr.meta.value.decorationSet.Some? then tr.meta.value.decorationSet else None
  }

  /** The state of a freshly created editor state. */
  function Init(): (s: DecorationSet)
    ensures |s.decorations| == 0
  {
    Empty
  }

  /** The state after one transaction. */
  function Apply(tr: Transaction, oldState: DecorationSet): (s: DecorationSet)
    ensures Supplied(tr).Some? ==> s == Supplied(tr).value
    ensures Supplied(tr).None? && tr.docChanged ==> s == tr.mapping(oldState)
    ensures Supplied(tr).None? && !tr.docChanged ==> s == oldState
  {
    if Supplied(tr).Some? then Supplied(tr).value
    else if tr.docChanged then tr.mapping(oldState)
    else oldState
  }

  /** The transaction the view's update dispatches: metadata only, no steps. */
  function Dispatch(d: DecorationSet): (tr: Transaction)
    ensures Supplied(tr) == Some(d) && !tr.docChanged
  {
    Transaction(Some(Meta(Some(d))), false, s => s)
  }

  /** The state after a sequence of transactions, applied in order. */
  function Replay(s: DecorationSet, trs: seq<Transaction>): DecorationSet
    decreases |trs|
  {
    if trs == [] then s
    else Apply(trs[|trs| - 1], Replay(s, trs[..|trs| - 1]))
  }

  /** `s` moved along with every document-changing transaction of `trs`, in order. */
  function MapForward(s: DecorationSet, trs: seq<Transaction>): DecorationSet
    decreases |trs|
  {
    if trs == [] then s
    else
      var last := trs[|trs| - 1];
      var before := MapForward(s, trs[..|trs| - 1]);
      if last.docChanged then last.mapping(before) else before
  }

  /** A set that a transaction supplies becomes the state, whatever the state was. */
  lemma SuppliedSetReplacesState(tr: Transaction, oldState: DecorationSet)
    requires Supplied(tr).Some?
    ensures Apply(tr, oldState) == Supplied(tr).value
  {
  }

  /** The set an update dispatches is the state right after the dispatch. */
  lemma DispatchCommits(d: DecorationSet, oldState: DecorationSet)
    ensures Apply(Dispatch(d), oldState) == d
  {
    SuppliedSetReplacesState(Dispatch(d), oldState);
  }

  /** A transaction that supplies no set but changes the document maps the old state through the edit. */
  lemma ChangedDocMapsState(tr: Transaction, oldState: DecorationSet)
    requires Supplied(tr).None? && tr.docChanged
    ensures Apply(tr, oldState) == tr.mapping(oldState)
  {
  }

  /** A transaction that neither supplies a set nor changes the document leaves the state alone. */
  lemma IdleTransactionKeepsState(tr: Transaction, oldState: DecorationSet)
    requires Supplied(tr).None? && !tr.docChanged
    ensures Apply(tr, oldState) == oldState
  {
  }

  /** With no set supplied, the state is the prior state mapped through every edit: it is never dropped. */
  lemma {:induction false} ReplayWithoutSupplied(s: DecorationSet, trs: seq<Transaction>)
    requires forall i :: 0 <= i < |trs| ==> Supplied(trs[i]).None?
    ensures Replay(s, trs) == MapForward(s, trs)
    decreases |trs|
  {
    if trs != [] {
      var init := trs[..|trs| - 1];
      forall i | 0 <= i < |init| ensures Supplied(init[i]).None? {
        assert init[i] == trs[i];
      }
      ReplayWithoutSupplied(s, init);
    }
  }

  /**
   * The state after a history is the last set supplied in it, mapped
   * through the edits that followed.
   */
  lemma {:induction false} ReplayAfterLastSupplied(s: DecorationSet, trs: seq<Transaction>, k: nat)
    requires k < |trs| && Supplied(trs[k]).Some?
    requires forall i :: k < i < |trs| ==> Supplied(trs[i]).None?
    ensures Replay(s, trs) == MapForward(Supplied(trs[k]).value, trs[k + 1..])
    decreases |trs|
  {
    var n := |trs| - 1;
    var init := trs[..n];
    if k == n {
      assert trs[k + 1..] == [];
    } else {
      assert init[k] == trs[k];
      forall i | k < i < |init| ensures Supplied(init[i]).None? {
        assert init[i] == trs[i];
      }
      ReplayAfterLastSupplied(s, init, k);
      assert trs[k + 1..][..|trs[k + 1..]| - 1] == init[k + 1..];
      assert trs[k + 1..][|trs[k + 1..]| - 1] == trs[n];
    }
  }
}
