/**
 * The editor decorations of src/ElasticDecoration.ts.
 *
 * `UpdateDecoration` hands the editor five lists of ranges, one per
 * decoration style: the method of every match, its path, the block of every
 * match that is not selected, its error, and the block of every selected
 * match. Undefined ranges are dropped. The styles themselves (colours, gutter
 * icons) and the call into the editor are not part of this model: the
 * function returns the five lists instead of passing them on.
 */
module Decoration {
  import opened Wrappers
  import opened Geometry
  import opened Matches

  /** The ranges handed to each decoration style. */
  datatype Decorations = Decorations(methods: seq<Range>, paths: seq<Range>, blocks: seq<Range>,
                                     errors: seq<Range>, selectedBlocks: seq<Range>)

  /** The three parts of a match whose range is highlighted. */
  datatype Layer = MethodLayer | PathLayer | ErrorLayer

  /** The part of a match a layer highlights. */
  function PartOf(info: MatchInfo, layer: Layer): Part {
    match layer
    case MethodLayer => info.httpMethod
    case PathLayer => info.path
    case ErrorLayer => info.error
  }

  /** `xs.filter(x => !!x)`: the defined values, in order. */
  function Defined<T>(xs: seq<Option<T>>): seq<T> {
    if xs == [] then []
    else Defined(xs[..|xs| - 1]) + (if xs[|xs| - 1].Some? then [xs[|xs| - 1].value] else [])
  }

  /** `matches.map(m => m.<part>.Range)`. */
  function PartRanges(ms: seq<Match>, layer: Layer): (r: seq<Option<Range>>)
    ensures |r| == |ms|
  {
    if ms == [] then []
    else PartRanges(ms[..|ms| - 1], layer) + [PartOf(ms[|ms| - 1].info, layer).range]
  }

  /** `matches.filter(x => x.Selected == selected).map(b => b.Range)`. */
  function Blocks(ms: seq<Match>, selected: bool): seq<Range>
    reads ms
  {
    if ms == [] then []
    else Blocks(ms[..|ms| - 1], selected)
         + (if ms[|ms| - 1].selected == selected then [ms[|ms| - 1].info.range] else [])
  }

  /**
   * `UpdateDecoration(esMatches)`. Without an editor the first
   * `setDecorations` call fails on the undefined editor, modelled as `None`.
   * The block ranges of unselected matches go through the same `!!x` filter
   * in the source; a match's range is always defined, so that filter keeps
   * every one of them.
   */
  function UpdateDecoration(esMatches: ElasticMatches): (d: Option<Decorations>)
    reads esMatches, esMatches.matches
    ensures d.None? <==> esMatches.editor.None?
  {
    if esMatches.editor.None? then None
    else
      var ms := esMatches.matches;
      Some(Decorations(Defined(PartRanges(ms, MethodLayer)), Defined(PartRanges(ms, PathLayer)),
                       Blocks(ms, false), Defined(PartRanges(ms, ErrorLayer)), Blocks(ms, true)))
  }

  /** Dropping undefined values keeps exactly the defined ones, and never lengthens the list. */
  lemma {:induction false} DefinedSpec<T>(xs: seq<Option<T>>)
    ensures |Defined(xs)| <= |xs|
    ensures forall x :: x in Defined(xs) <==> Some(x) in xs
    ensures |Defined(xs)| == |xs| <==> forall i :: 0 <= i < |xs| ==> xs[i].Some?
  {
    if xs != [] {
      var init := xs[..|xs| - 1];
      DefinedSpec(init);
      assert xs == init + [xs[|xs| - 1]];
      if forall i :: 0 <= i < |xs| ==> xs[i].Some? {
        assert forall i :: 0 <= i < |init| ==> init[i].Some? by {
          forall i | 0 <= i < |init| ensures init[i].Some? {
            assert init[i] == xs[i];
          }
        }
      }
    }
  }

  /** Dropping undefined values keeps their order: it distributes over concatenation. */
  lemma {:induction false} DefinedAppend<T>(xs: seq<Option<T>>, ys: seq<Option<T>>)
    ensures Defined(xs + ys) == Defined(xs) + Defined(ys)
    decreases |ys|
  {
    if ys == [] {
      assert xs + ys == xs;
    } else {
      var init := ys[..|ys| - 1];
      var last := if ys[|ys| - 1].Some? then [ys[|ys| - 1].value] else [];
      assert (xs + ys)[..|xs + ys| - 1] == xs + init;
      DefinedAppend(xs, init);
      calc {
        Defined(xs + ys);
        Defined(xs + init) + last;
        (Defined(xs) + Defined(init)) + last;
        Defined(xs) + (Defined(init) + last);
        Defined(xs) + Defined(ys);
      }
    }
  }

  /** The ranges of one layer are the layer's part ranges, match by match. */
  lemma {:induction false} PartRangesAt(ms: seq<Match>, layer: Layer, t: nat)
    requires t < |ms|
    ensures PartRanges(ms, layer)[t] == PartOf(ms[t].info, layer).range
    decreases |ms|
  {
    if t < |ms| - 1 {
      PartRangesAt(ms[..|ms| - 1], layer, t);
    }
  }

  /**
   * The block lists split the matches: every match's range is in the
   * selected list or the unselected one according to its `Selected` flag,
   * each listed range is the range of a match with that flag, and the lists
   * together have one entry per match.
   */
  lemma {:induction false} BlocksSpec(ms: seq<Match>, selected: bool)
    ensures |Blocks(ms, selected)| + |Blocks(ms, !selected)| == |ms|
    ensures forall r :: r in Blocks(ms, selected)
              <==> exists t :: 0 <= t < |ms| && ms[t].selected == selected && ms[t].info.range == r
    decreases |ms|
  {
    if ms != [] {
      var init := ms[..|ms| - 1];
      BlocksSpec(init, selected);
      forall r | r in Blocks(ms, selected)
        ensures exists t :: 0 <= t < |ms| && ms[t].selected == selected && ms[t].info.range == r
      {
        if r in Blocks(init, selected) {
          var t :| 0 <= t < |init| && init[t].selected == selected && init[t].info.range == r;
          assert ms[t] == init[t];
        }
      }
      forall r | exists t :: 0 <= t < |ms| && ms[t].selected == selected && ms[t].info.range == r
        ensures r in Blocks(ms, selected)
      {
        var t :| 0 <= t < |ms| && ms[t].selected == selected && ms[t].info.range == r;
        if t < |init| {
          assert init[t] == ms[t];
        }
      }
    }
  }

  /**
   * What `UpdateDecoration` draws for the parts of the matches: a method,
   * path or error range for exactly the matches where that part's range is
   * defined, at most one per match.
   */
  lemma UpdateDecorationParts(esMatches: ElasticMatches)
    requires esMatches.editor.Some?
    ensures var d := UpdateDecoration(esMatches).value;
      var ms := esMatches.matches;
      && |d.methods| <= |ms| && |d.paths| <= |ms| && |d.errors| <= |ms|
      && (forall r :: r in d.methods <==> exists t :: 0 <= t < |ms| && ms[t].info.httpMethod.range == Some(r))
      && (forall r :: r in d.paths <==> exists t :: 0 <= t < |ms| && ms[t].info.path.range == Some(r))
      && (forall r :: r in d.errors <==> exists t :: 0 <= t < |ms| && ms[t].info.error.range == Some(r))
  {
    var ms := esMatches.matches;
    var d := UpdateDecoration(esMatches).value;
    LayerSpec(ms, MethodLayer);
    LayerSpec(ms, PathLayer);
    LayerSpec(ms, ErrorLayer);
    assert d.methods == Defined(PartRanges(ms, MethodLayer));
    assert d.paths == Defined(PartRanges(ms, PathLayer));
    assert d.errors == Defined(PartRanges(ms, ErrorLayer));
  }

  /**
   * What `UpdateDecoration` draws for the blocks: every match's block in the
   * selected or the unselected style according to its `Selected` flag, one
   * block per match.
   */
  lemma UpdateDecorationBlocks(esMatches: ElasticMatches)
    requires esMatches.editor.Some?
    ensures var d := UpdateDecoration(esMatches).value;
      var ms := esMatches.matches;
      && |d.blocks| + |d.selectedBlocks| == |ms|
      && (forall t :: 0 <= t < |ms| && ms[t].selected ==> ms[t].info.range in d.selectedBlocks)
      && (forall t :: 0 <= t < |ms| && !ms[t].selected ==> ms[t].info.range in d.blocks)
  {
    BlocksSpec(esMatches.matches, true);
    BlocksSpec(esMatches.matches, false);
  }

  /** The defined ranges of one layer: at most one per match, exactly those of the matches whose part has one. */
  lemma LayerSpec(ms: seq<Match>, layer: Layer)
    ensures |Defined(PartRanges(ms, layer))| <= |ms|
    ensures forall r :: r in Defined(PartRanges(ms, layer))
              <==> exists t :: 0 <= t < |ms| && PartOf(ms[t].info, layer).range == Some(r)
  {
    var rs := PartRanges(ms, layer);
    DefinedSpec(rs);
    forall t | 0 <= t < |ms|
      ensures rs[t] == PartOf(ms[t].info, layer).range
    {
      PartRangesAt(ms, layer, t);
    }
  }

  /**
   * After `UpdateSelection`, the selected style marks exactly the blocks that
   * contain the editor's selection.
   */
  lemma SelectedBlocksHoldSelection(esMatches: ElasticMatches, sel: Range)
    requires esMatches.editor.Some?
    requires forall t :: 0 <= t < |esMatches.matches| ==>
               esMatches.matches[t].selected == Contains(esMatches.matches[t].info.range, sel)
    ensures var d := UpdateDecoration(esMatches).value;
      && (forall r :: r in d.selectedBlocks ==> Contains(r, sel))
      && (forall r :: r in d.blocks ==> !Contains(r, sel))
  {
    BlocksSpec(esMatches.matches, true);
    BlocksSpec(esMatches.matches, false);
  }
}
