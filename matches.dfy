/**
 * The query blocks of an editor buffer (src/ElasticMatches.ts).
 *
 * The constructor folds over the buffer's lines: blank lines are skipped, a
 * line the start-line pattern accepts becomes a new match, and a line whose
 * trimmed text starts with `{` right after a start line marks that match as
 * having a body. `UpdateSelection` flags every match whose range contains the
 * editor's selection and remembers the last such match.
 *
 * The start-line pattern and the per-match record are defined in a file that
 * is not part of this model: the pattern is the parameter `isStartLine`, and
 * the record's fields are what the parameter `parse` returns for a line.
 */
module Matches {
  import opened Wrappers
  import opened Geometry
  import opened Text

  /** A piece of a match (its method, path, error or file): a text and a range, either possibly undefined. */
  datatype Part = Part(text: Option<string>, range: Option<Range>)

  /**
   * The fields `new ElasticMatch(line, match)` gives a match: its method (`Method`),
   * path, block range, error and file parts, and the initial `HasBody`.
   */
  datatype MatchInfo = MatchInfo(httpMethod: Part, path: Part, range: Range, error: Part,
                                 file: Option<Part>, hasBody: bool)

  /** The editor as the scan sees it: the text of each line and the current selection. */
  datatype Editor = Editor(lines: seq<string>, selection: Range)

  /** An `ElasticMatch`: fixed fields from its constructor, and the two flags the core updates. */
  class Match {
    const info: MatchInfo
    var hasBody: bool
    var selected: bool

    constructor(info: MatchInfo)
      ensures this.info == info && hasBody == info.hasBody && !selected
    {
      this.info := info;
      hasBody := info.hasBody;
      selected := false;
    }
  }

  /** A blank line: `line.text.trim().length == 0` (see `Text.TrimFirst`). */
  predicate IsBlank(t: string) {
    FirstVisible(t).None?
  }

  /** `line.text.trim().startsWith('{')` (see `Text.TrimFirst`). */
  predicate OpensBody(t: string) {
    FirstVisible(t) == Some('{')
  }

  /** Line `i` becomes a match: it is not blank and the start-line pattern accepts it. */
  predicate IsStart(lines: seq<string>, isStartLine: string -> bool, i: nat)
    requires i < |lines|
  {
    !IsBlank(lines[i]) && isStartLine(lines[i])
  }

  /** The start lines among the first `n` lines, as the scan meets them. */
  function StartLines(lines: seq<string>, isStartLine: string -> bool, n: nat): seq<nat>
    requires n <= |lines|
  {
    if n == 0 then []
    else StartLines(lines, isStartLine, n - 1) + (if IsStart(lines, isStartLine, n - 1) then [n - 1] else [])
  }

  /** `StartLines` lists exactly the start lines, in increasing line order. */
  lemma {:induction false} StartLinesSpec(lines: seq<string>, isStartLine: string -> bool, n: nat)
    requires n <= |lines|
    ensures var r := StartLines(lines, isStartLine, n);
      && (forall t :: 0 <= t < |r| ==> r[t] < n && IsStart(lines, isStartLine, r[t]))
      && (forall t, u :: 0 <= t < u < |r| ==> r[t] < r[u])
      && (forall i :: 0 <= i < n && IsStart(lines, isStartLine, i) ==> i in r)
  {
    if n > 0 {
      StartLinesSpec(lines, isStartLine, n - 1);
    }
  }

  /** The last line before `n` that is not blank. */
  function PrevNonBlank(lines: seq<string>, n: nat): (r: Option<nat>)
    requires n <= |lines|
    ensures r.Some? ==> r.value < n
  {
    if n == 0 then None
    else if !IsBlank(lines[n - 1]) then Some(n - 1)
    else PrevNonBlank(lines, n - 1)
  }

  /** `PrevNonBlank` finds the line that is not blank and has only blank lines after it before `n`. */
  lemma {:induction false} PrevNonBlankSpec(lines: seq<string>, n: nat)
    requires n <= |lines|
    ensures var r := PrevNonBlank(lines, n);
      && (r.Some? ==> r.value < n && !IsBlank(lines[r.value]) && forall j :: r.value < j < n ==> IsBlank(lines[j]))
      && (r.None? ==> forall j :: 0 <= j < n ==> IsBlank(lines[j]))
  {
    if n > 0 && IsBlank(lines[n - 1]) {
      PrevNonBlankSpec(lines, n - 1);
    }
  }

  /** The first line in `[from, n)` that is not blank. */
  function NextNonBlank(lines: seq<string>, from: nat, n: nat): (r: Option<nat>)
    requires n <= |lines|
    ensures r.Some? ==> from <= r.value < n
  {
    if n <= from then None
    else
      var r := NextNonBlank(lines, from, n - 1);
      if r.Some? then r
      else if !IsBlank(lines[n - 1]) then Some(n - 1)
      else None
  }

  /** `NextNonBlank` finds the line in `[from, n)` that is not blank and has only blank lines before it. */
  lemma {:induction false} NextNonBlankSpec(lines: seq<string>, from: nat, n: nat)
    requires n <= |lines|
    ensures var r := NextNonBlank(lines, from, n);
      && (r.Some? ==> from <= r.value < n && !IsBlank(lines[r.value]) && forall j :: from <= j < r.value ==> IsBlank(lines[j]))
      && (r.None? ==> forall j :: from <= j < n ==> IsBlank(lines[j]))
  {
    if from < n {
      NextNonBlankSpec(lines, from, n - 1);
    }
  }

  /** The scan's `matched` flag before line `n`: the last line that is not blank was a start line. */
  predicate Matched(lines: seq<string>, isStartLine: string -> bool, n: nat)
    requires n <= |lines|
  {
    match PrevNonBlank(lines, n)
    case Some(k) => isStartLine(lines[k])
    case None => false
  }

  /** Among the first `n` lines, the first line after `start` that is not blank opens a body. */
  predicate BodyFollows(lines: seq<string>, start: nat, n: nat)
    requires n <= |lines|
  {
    match NextNonBlank(lines, start + 1, n)
    case Some(k) => OpensBody(lines[k])
    case None => false
  }

  /** The fields of the match created for start line `i`. */
  function InfoAt(lines: seq<string>, parse: (nat, string) -> MatchInfo, i: nat): MatchInfo
    requires i < |lines|
  {
    parse(i, lines[i])
  }

  /** No match object occurs twice. */
  ghost predicate Distinct(ms: seq<Match>) {
    forall t, u :: 0 <= t < u < |ms| ==> ms[t] != ms[u]
  }

  /** The index of the last match whose range contains the selection. */
  function LastContaining(ms: seq<Match>, sel: Range): (r: Option<nat>)
    ensures r.Some? ==> r.value < |ms| && Contains(ms[r.value].info.range, sel)
                        && forall u :: r.value < u < |ms| ==> !Contains(ms[u].info.range, sel)
    ensures r.None? ==> forall u :: 0 <= u < |ms| ==> !Contains(ms[u].info.range, sel)
  {
    if ms == [] then None
    else if Contains(ms[|ms| - 1].info.range, sel) then Some(|ms| - 1)
    else LastContaining(ms[..|ms| - 1], sel)
  }

  /** The `Selection` after visiting `ms`: the last match containing the selection, or `prev` if none does. */
  function Chosen(ms: seq<Match>, sel: Range, prev: Option<Match>): Option<Match> {
    match LastContaining(ms, sel)
    case Some(k) => Some(ms[k])
    case None => prev
  }

  /** What the scan has gathered: the start lines, their matches' fields and `HasBody` flags, and `matched`. */
  datatype Scan = Scan(starts: seq<nat>, infos: seq<MatchInfo>, bodies: seq<bool>, matched: bool)

  /**
   * The constructor's fold over the first `n` lines, one `ScanLine` step per
   * line.
   */
  function ScanLines(lines: seq<string>, isStartLine: string -> bool, parse: (nat, string) -> MatchInfo, n: nat): Scan
    requires n <= |lines|
  {
    if n == 0 then Scan([], [], [], false)
    else ScanLine(ScanLines(lines, isStartLine, parse, n - 1), isStartLine, parse, n - 1, lines[n - 1])
  }

  /**
   * The scan's step over line number `i`, whose text is `line`: a blank line
   * is skipped; any other line first marks the most recent match as having a
   * body when `matched` is set and the line opens a body, then clears
   * `matched`, and a start line adds a match and sets `matched`.
   */
  function ScanLine(sc: Scan, isStartLine: string -> bool, parse: (nat, string) -> MatchInfo, i: nat, line: string): Scan
  {
    if IsBlank(line) then sc
    else
      var bodies := if sc.matched && OpensBody(line) && |sc.bodies| > 0
                    then sc.bodies[|sc.bodies| - 1 := true] else sc.bodies;
      if isStartLine(line) then Scan(sc.starts + [i], sc.infos + [parse(i, line)], bodies + [parse(i, line).hasBody], true)
      else Scan(sc.starts, sc.infos, bodies, false)
  }

  /**
   * One line's effect on the scan: a blank line changes nothing; any other
   * line sets `matched` exactly when it is a start line, which adds one
   * match; and `HasBody` only ever turns on, and only on the most recent
   * match when `matched` was set and the line opens a body.
   */
  lemma ScanLineEffect(sc: Scan, isStartLine: string -> bool, parse: (nat, string) -> MatchInfo, i: nat, line: string)
    ensures var sc' := ScanLine(sc, isStartLine, parse, i, line);
      && (IsBlank(line) ==> sc' == sc)
      && (!IsBlank(line) ==> sc'.matched == isStartLine(line))
      && |sc'.bodies| == |sc.bodies| + (if !IsBlank(line) && isStartLine(line) then 1 else 0)
      && (forall t :: 0 <= t < |sc.bodies| ==>
            sc'.bodies[t] == (sc.bodies[t] || (t == |sc.bodies| - 1 && sc.matched && !IsBlank(line) && OpensBody(line))))
  {
  }

  /** Each match carries the fields and the `HasBody` flag that the scan state `sc` lists for it. */
  ghost predicate Mirrors(ms: seq<Match>, sc: Scan)
    reads ms
  {
    && |ms| == |sc.infos| == |sc.bodies|
    && forall t :: 0 <= t < |ms| ==> ms[t].info == sc.infos[t] && ms[t].hasBody == sc.bodies[t]
  }

  /**
   * One pass of the constructor's loop, over line number `i` with text
   * `line`: it does to the matches and the `matched` flag what `ScanLine`
   * does to the scan state.
   */
  method ScanStep(ms: seq<Match>, matched: bool, i: nat, line: string, isStartLine: string -> bool,
                  parse: (nat, string) -> MatchInfo, ghost sc: Scan) returns (ms': seq<Match>, matched': bool)
    requires Mirrors(ms, sc) && sc.matched == matched && (matched ==> |ms| > 0) && Distinct(ms)
    modifies ms
    ensures var sc' := ScanLine(sc, isStartLine, parse, i, line);
      Mirrors(ms', sc') && sc'.matched == matched' && (matched' ==> |ms'| > 0) && Distinct(ms')
    ensures |ms'| >= |ms| && ms'[..|ms|] == ms
    ensures forall t :: |ms| <= t < |ms'| ==> fresh(ms'[t])
  {
    ms', matched' := ms, matched;
    var trimedLine := Trim(line);
    TrimFirst(line);
    if |trimedLine| == 0 {
      return;
    }
    if matched' && trimedLine[0] == '{' {
      ms'[|ms'| - 1].hasBody := true;
    }
    matched' := false;
    if isStartLine(line) {
      matched' := true;
      var em := new Match(parse(i, line));
      ms' := ms' + [em];
    }
  }

  /**
   * The constructor's loop over the lines of the buffer: it creates the
   * matches `ScanLines` describes, all of them new and distinct.
   */
  method ScanMatches(lines: seq<string>, isStartLine: string -> bool, parse: (nat, string) -> MatchInfo)
    returns (ms: seq<Match>)
    ensures Mirrors(ms, ScanLines(lines, isStartLine, parse, |lines|))
    ensures forall t :: 0 <= t < |ms| ==> fresh(ms[t])
    ensures Distinct(ms)
  {
    ms := [];
    var matched := false;
    var i: nat := 0;
    ghost var sc := Scan([], [], [], false);
    while i < |lines|
      invariant i <= |lines|
      invariant ScanLines(lines, isStartLine, parse, i) == sc && sc.matched == matched
      invariant Mirrors(ms, sc) && (matched ==> |ms| > 0)
      invariant forall t :: 0 <= t < |ms| ==> fresh(ms[t])
      invariant Distinct(ms)
    {
      ms, matched := ScanStep(ms, matched, i, lines[i], isStartLine, parse, sc);
      sc := ScanLine(sc, isStartLine, parse, i, lines[i]);
      i := i + 1;
    }
  }

  /**
   * What the scan computes: its matches are the start lines, each with the
   * fields the constructor gave it and `HasBody` set exactly when that
   * constructor value was set or the next line that is not blank opens a
   * body; and `matched` says whether the last line that is not blank was a
   * start line.
   */
  lemma {:induction false} ScanLinesMeaning(lines: seq<string>, isStartLine: string -> bool,
                                            parse: (nat, string) -> MatchInfo, n: nat)
    requires n <= |lines|
    ensures var sc := ScanLines(lines, isStartLine, parse, n);
      && sc.starts == StartLines(lines, isStartLine, n)
      && sc.matched == Matched(lines, isStartLine, n)
      && |sc.infos| == |sc.starts|
      && (forall t :: 0 <= t < |sc.starts| ==> sc.starts[t] < n && sc.infos[t] == InfoAt(lines, parse, sc.starts[t]))
      && BodiesAt(lines, parse, sc.starts, sc.bodies, n)
  {
    if n > 0 {
      var i := n - 1;
      ScanLinesMeaning(lines, isStartLine, parse, i);
      var sc := ScanLines(lines, isStartLine, parse, i);
      if IsBlank(lines[i]) {
        BlankLine(lines, isStartLine, parse, sc.starts, sc.bodies, i);
      } else {
        MatchedHasMatch(lines, isStartLine, sc.starts, i);
        var bodies := if sc.matched && OpensBody(lines[i]) && |sc.bodies| > 0
                      then sc.bodies[|sc.bodies| - 1 := true] else sc.bodies;
        var bodies' := bodies + (if isStartLine(lines[i]) then [InfoAt(lines, parse, i).hasBody] else []);
        BodiesStep(lines, isStartLine, parse, sc.starts, sc.bodies, i, bodies');
      }
    }
  }

  /** `ElasticMatches`: the editor, its matches in line order, and the selected match. */
  class ElasticMatches {
    var editor: Option<Editor>
    var matches: seq<Match>
    var selection: Option<Match>

    /**
     * The constructor's line scan. An absent editor leaves the list empty;
     * otherwise there is one match per start line, in line order, each with
     * `HasBody` set when the next line that is not blank opens a body, and
     * the scan ends with `UpdateSelection`.
     */
    constructor(editor: Option<Editor>, isStartLine: string -> bool, parse: (nat, string) -> MatchInfo)
      ensures editor.None? ==> this.editor == None && matches == [] && selection == None
      ensures editor.Some? ==>
        var e := editor.value;
        var starts := StartLines(e.lines, isStartLine, |e.lines|);
        && this.editor == editor
        && |matches| == |starts|
        && (forall t :: 0 <= t < |starts| ==> starts[t] < |e.lines|)
        && (forall t :: 0 <= t < |matches| ==> matches[t].info == InfoAt(e.lines, parse, starts[t]))
        && (forall t :: 0 <= t < |matches| ==>
              matches[t].hasBody == (matches[t].info.hasBody || BodyFollows(e.lines, starts[t], |e.lines|)))
        && (forall t :: 0 <= t < |matches| ==> matches[t].selected == Contains(matches[t].info.range, e.selection))
        && selection == Chosen(matches, e.selection, None)
      ensures Distinct(matches)
    {
      this.editor := editor;
      matches := [];
      selection := None;
      new;
      if editor.Some? {
        var e := editor.value;
        matches := ScanMatches(e.lines, isStartLine, parse);
        ScanLinesMeaning(e.lines, isStartLine, parse, |e.lines|);
        UpdateSelection(e);
      }
    }

    /**
     * `UpdateSelection`: sets each match's `Selected` to whether its range
     * contains the selection and points `Selection` at the last such match,
     * keeping the previous `Selection` when there is none.
     */
    method UpdateSelection(e: Editor)
      modifies this, matches
      ensures editor == Some(e) && matches == old(matches)
      ensures forall t :: 0 <= t < |matches| ==> matches[t].selected == Contains(matches[t].info.range, e.selection)
      ensures forall t :: 0 <= t < |matches| ==> matches[t].hasBody == old(matches[t].hasBody)
      ensures selection == Chosen(matches, e.selection, old(selection))
    {
      editor := Some(e);
      var t := 0;
      while t < |matches|
        invariant t <= |matches| && editor == Some(e) && matches == old(matches)
        invariant forall u :: 0 <= u < t ==> matches[u].selected == Contains(matches[u].info.range, e.selection)
        invariant forall u :: 0 <= u < |matches| ==> matches[u].hasBody == old(matches[u].hasBody)
        invariant selection == Chosen(matches[..t], e.selection, old(selection))
      {
        var element := matches[t];
        element.selected := Contains(element.info.range, e.selection);
        if element.selected {
          selection := Some(element);
        }
        assert matches[..t + 1][..t] == matches[..t];
        t := t + 1;
      }
      assert matches[..t] == matches;
    }
  }

  /**
   * The `HasBody` flags of the matches for `starts`, when the scan has seen
   * the first `n` lines: the constructor's value, or a body right after it.
   */
  ghost predicate BodiesAt(lines: seq<string>, parse: (nat, string) -> MatchInfo,
                           starts: seq<nat>, bodies: seq<bool>, n: nat)
  {
    && n <= |lines| && |bodies| == |starts|
    && (forall t :: 0 <= t < |starts| ==> starts[t] < n)
    && forall t :: 0 <= t < |starts| ==>
         bodies[t] == (InfoAt(lines, parse, starts[t]).hasBody || BodyFollows(lines, starts[t], n))
  }

  /** The flag of the match at position `t` after a line that is not blank. */
  lemma BodyStep(lines: seq<string>, isStartLine: string -> bool, parse: (nat, string) -> MatchInfo,
                 starts: seq<nat>, bodies: seq<bool>, i: nat, bodies': seq<bool>, t: nat)
    requires i < |lines| && !IsBlank(lines[i]) && starts == StartLines(lines, isStartLine, i)
    requires BodiesAt(lines, parse, starts, bodies, i)
    requires Matched(lines, isStartLine, i) ==> |bodies| > 0
    requires bodies' == (if Matched(lines, isStartLine, i) && OpensBody(lines[i]) then bodies[|bodies| - 1 := true] else bodies)
                        + (if isStartLine(lines[i]) then [InfoAt(lines, parse, i).hasBody] else [])
    requires t < |StartLines(lines, isStartLine, i + 1)|
    ensures var starts' := StartLines(lines, isStartLine, i + 1);
      t < |bodies'| && starts'[t] <= i
      && bodies'[t] == (InfoAt(lines, parse, starts'[t]).hasBody || BodyFollows(lines, starts'[t], i + 1))
  {
    NonBlankLine(lines, isStartLine, starts, i);
    var starts' := StartLines(lines, isStartLine, i + 1);
    StartLinesSpec(lines, isStartLine, i + 1);
    var n := |starts|;
    if t + 1 < n {
      assert bodies'[t] == bodies[t] && starts'[t] == starts[t];
    } else if t + 1 == n {
      assert starts'[t] == starts[t];
    } else {
      assert starts'[t] == i && bodies'[t] == InfoAt(lines, parse, i).hasBody;
    }
  }

  /** One line that is not blank keeps the `HasBody` flags in step with the lines seen. */
  lemma BodiesStep(lines: seq<string>, isStartLine: string -> bool, parse: (nat, string) -> MatchInfo,
                   starts: seq<nat>, bodies: seq<bool>, i: nat, bodies': seq<bool>)
    requires i < |lines| && !IsBlank(lines[i]) && starts == StartLines(lines, isStartLine, i)
    requires BodiesAt(lines, parse, starts, bodies, i)
    requires Matched(lines, isStartLine, i) ==> |bodies| > 0
    requires bodies' == (if Matched(lines, isStartLine, i) && OpensBody(lines[i]) then bodies[|bodies| - 1 := true] else bodies)
                        + (if isStartLine(lines[i]) then [InfoAt(lines, parse, i).hasBody] else [])
    ensures BodiesAt(lines, parse, StartLines(lines, isStartLine, i + 1), bodies', i + 1)
  {
    var starts' := StartLines(lines, isStartLine, i + 1);
    forall t | 0 <= t < |starts'|
      ensures t < |bodies'| && starts'[t] < i + 1
      ensures bodies'[t] == (InfoAt(lines, parse, starts'[t]).hasBody || BodyFollows(lines, starts'[t], i + 1))
    {
      BodyStep(lines, isStartLine, parse, starts, bodies, i, bodies', t);
    }
    NonBlankLine(lines, isStartLine, starts, i);
  }

  /** The scan's step over a blank line keeps its whole state. */
  lemma BlankLine(lines: seq<string>, isStartLine: string -> bool, parse: (nat, string) -> MatchInfo,
                  starts: seq<nat>, bodies: seq<bool>, i: nat)
    requires i < |lines| && IsBlank(lines[i]) && BodiesAt(lines, parse, starts, bodies, i)
    ensures StartLines(lines, isStartLine, i + 1) == StartLines(lines, isStartLine, i)
    ensures Matched(lines, isStartLine, i + 1) == Matched(lines, isStartLine, i)
    ensures BodiesAt(lines, parse, starts, bodies, i + 1)
  {
    BlankLineChangesNothing(lines, isStartLine, i);
  }

  /** A set `matched` flag implies a most recent match; after a line that is not blank it is that line's test. */
  lemma MatchedHasMatch(lines: seq<string>, isStartLine: string -> bool, starts: seq<nat>, i: nat)
    requires i < |lines| && !IsBlank(lines[i]) && starts == StartLines(lines, isStartLine, i)
    ensures Matched(lines, isStartLine, i) ==> |starts| > 0
    ensures Matched(lines, isStartLine, i + 1) == isStartLine(lines[i])
    ensures StartLines(lines, isStartLine, i + 1) == starts + (if isStartLine(lines[i]) then [i] else [])
  {
    NonBlankLine(lines, isStartLine, starts, i);
  }

  /** A blank line changes neither the start lines, nor the `matched` flag, nor any body test. */
  lemma BlankLineChangesNothing(lines: seq<string>, isStartLine: string -> bool, i: nat)
    requires i < |lines| && IsBlank(lines[i])
    ensures StartLines(lines, isStartLine, i + 1) == StartLines(lines, isStartLine, i)
    ensures PrevNonBlank(lines, i + 1) == PrevNonBlank(lines, i)
    ensures forall start :: BodyFollows(lines, start, i + 1) == BodyFollows(lines, start, i)
  {
  }

  /** When the `matched` flag is set, the last line that is not blank is a start line. */
  lemma MatchedAfterStart(lines: seq<string>, isStartLine: string -> bool, i: nat)
    requires i <= |lines| && Matched(lines, isStartLine, i)
    ensures PrevNonBlank(lines, i).Some? && PrevNonBlank(lines, i).value in StartLines(lines, isStartLine, i)
  {
    PrevNonBlankSpec(lines, i);
    StartLinesSpec(lines, isStartLine, i);
    var k := PrevNonBlank(lines, i).value;
    assert IsStart(lines, isStartLine, k);
  }

  /** Every start line but the most recent one is followed by a line that is not blank. */
  lemma EarlierBodiesSettled(lines: seq<string>, isStartLine: string -> bool, starts: seq<nat>, i: nat)
    requires i < |lines| && starts == StartLines(lines, isStartLine, i)
    ensures forall t :: 0 <= t < |starts| - 1 ==>
              BodyFollows(lines, starts[t], i + 1) == BodyFollows(lines, starts[t], i)
  {
    StartLinesSpec(lines, isStartLine, i);
    forall t | 0 <= t < |starts| - 1
      ensures NextNonBlank(lines, starts[t] + 1, i).Some?
    {
      NextNonBlankSpec(lines, starts[t] + 1, i);
      assert starts[t] + 1 <= starts[t + 1] < i && !IsBlank(lines[starts[t + 1]]);
    }
  }

  /**
   * The most recent start line gains a body at line `i` exactly when the
   * `matched` flag is set there and line `i` opens a body.
   */
  lemma LastBody(lines: seq<string>, isStartLine: string -> bool, starts: seq<nat>, i: nat)
    requires i < |lines| && !IsBlank(lines[i]) && starts == StartLines(lines, isStartLine, i) && |starts| > 0
    ensures BodyFollows(lines, starts[|starts| - 1], i + 1)
         == (BodyFollows(lines, starts[|starts| - 1], i) || (Matched(lines, isStartLine, i) && OpensBody(lines[i])))
  {
    var l := starts[|starts| - 1];
    StartLinesSpec(lines, isStartLine, i);
    NextNonBlankSpec(lines, l + 1, i);
    PrevNonBlankSpec(lines, i);
    if NextNonBlank(lines, l + 1, i).None? {
      assert PrevNonBlank(lines, i) == Some(l);
    } else if Matched(lines, isStartLine, i) {
      MatchedAfterStart(lines, isStartLine, i);
    }
  }

  /** What a line that is not blank does to the scan's state. */
  lemma NonBlankLine(lines: seq<string>, isStartLine: string -> bool, starts: seq<nat>, i: nat)
    requires i < |lines| && !IsBlank(lines[i]) && starts == StartLines(lines, isStartLine, i)
    ensures PrevNonBlank(lines, i + 1) == Some(i)
    ensures StartLines(lines, isStartLine, i + 1)
         == starts + (if isStartLine(lines[i]) then [i] else [])
    ensures forall t :: 0 <= t < |starts| - 1 ==>
              BodyFollows(lines, starts[t], i + 1) == BodyFollows(lines, starts[t], i)
    ensures |starts| > 0 ==>
              BodyFollows(lines, starts[|starts| - 1], i + 1)
              == (BodyFollows(lines, starts[|starts| - 1], i)
                  || (Matched(lines, isStartLine, i) && OpensBody(lines[i])))
    ensures Matched(lines, isStartLine, i) ==> |starts| > 0
    ensures !BodyFollows(lines, i, i + 1)
  {
    EarlierBodiesSettled(lines, isStartLine, starts, i);
    if |starts| > 0 {
      LastBody(lines, isStartLine, starts, i);
    }
    if Matched(lines, isStartLine, i) {
      MatchedAfterStart(lines, isStartLine, i);
    }
  }

  /**
   * The `matched` flag before line `n` is set exactly when some start line
   * has only blank lines after it before `n`.
   */
  lemma MatchedMeans(lines: seq<string>, isStartLine: string -> bool, n: nat)
    requires n <= |lines|
    ensures Matched(lines, isStartLine, n)
        <==> exists k :: 0 <= k < n && IsStart(lines, isStartLine, k) && forall j :: k < j < n ==> IsBlank(lines[j])
  {
    PrevNonBlankSpec(lines, n);
    if Matched(lines, isStartLine, n) {
      var k := PrevNonBlank(lines, n).value;
      assert IsStart(lines, isStartLine, k);
    }
    if exists k :: 0 <= k < n && IsStart(lines, isStartLine, k) && forall j :: k < j < n ==> IsBlank(lines[j]) {
      var k :| 0 <= k < n && IsStart(lines, isStartLine, k) && forall j :: k < j < n ==> IsBlank(lines[j]);
      assert !IsBlank(lines[k]);
    }
  }

  /**
   * Among the first `n` lines, a body follows the start line `start` exactly
   * when some line after it opens a body and only blank lines lie between.
   */
  lemma BodyFollowsMeans(lines: seq<string>, start: nat, n: nat)
    requires n <= |lines|
    ensures BodyFollows(lines, start, n)
        <==> exists k :: start < k < n && OpensBody(lines[k]) && forall j :: start < j < k ==> IsBlank(lines[j])
  {
    NextNonBlankSpec(lines, start + 1, n);
    if exists k :: start < k < n && OpensBody(lines[k]) && forall j :: start < j < k ==> IsBlank(lines[j]) {
      var k :| start < k < n && OpensBody(lines[k]) && forall j :: start < j < k ==> IsBlank(lines[j]);
      BodyAtFirstVisibleLine(lines, start, n, k);
    }
  }

  /** A line that opens a body with only blank lines before it is the first line that is not blank. */
  lemma BodyAtFirstVisibleLine(lines: seq<string>, start: nat, n: nat, k: nat)
    requires n <= |lines| && start < k < n && OpensBody(lines[k])
    requires forall j :: start < j < k ==> IsBlank(lines[j])
    ensures NextNonBlank(lines, start + 1, n) == Some(k)
  {
    NextNonBlankSpec(lines, start + 1, n);
    assert !IsBlank(lines[k]);
  }

  /** Running `UpdateSelection` again with the same selection leaves `Selection` as it is. */
  lemma ChosenIdempotent(ms: seq<Match>, sel: Range, prev: Option<Match>)
    ensures Chosen(ms, sel, Chosen(ms, sel, prev)) == Chosen(ms, sel, prev)
  {
  }

  /**
   * The `Selection` is a match of the list whose range contains the
   * selection, and every later match's range does not; when no range
   * contains the selection it is the one before.
   */
  lemma ChosenIsLastContaining(ms: seq<Match>, sel: Range, prev: Option<Match>)
    ensures (exists t :: 0 <= t < |ms| && Contains(ms[t].info.range, sel))
        ==> exists t :: 0 <= t < |ms| && Chosen(ms, sel, prev) == Some(ms[t])
                        && Contains(ms[t].info.range, sel)
                        && forall u :: t < u < |ms| ==> !Contains(ms[u].info.range, sel)
    ensures (forall t :: 0 <= t < |ms| ==> !Contains(ms[t].info.range, sel)) ==> Chosen(ms, sel, prev) == prev
  {
    var r := LastContaining(ms, sel);
    if r.Some? {
      assert Chosen(ms, sel, prev) == Some(ms[r.value]);
    }
  }
}
