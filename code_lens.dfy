/**
 * The code lenses of src/ElasticCodeLensProvider.ts.
 *
 * For every match, in order, the provider offers lenses above the match's
 * method: a query without an error gets "Run Query", and when it has a body
 * also "Auto indent", or "Open File" when the body names a file with text.
 * A query with an error gets one warning lens that runs nothing: the file
 * does not exist, the file is not valid JSON, or the body is not valid JSON.
 */
module CodeLens {
  import opened Wrappers
  import opened Geometry
  import opened Matches

  /** A `vscode.CodeLens`: its range and its command's title, command id and arguments. */
  datatype Lens = Lens(range: Option<Range>, title: string, command: string, arguments: Option<Match>)

  const RunQuery: string := "\U{25B6} Run Query"
  const AutoIndent: string := "\U{26A1}Auto indent"
  const OpenFile: string := "\U{1F4C2}Open File"
  const FileNotExist: string := "\U{26A0}\U{FE0F}File NotExist"
  const InvalidJsonFile: string := "\U{26A0}\U{FE0F}Invalid JsonFile"
  const InvalidJson: string := "\U{26A0}\U{FE0F}Invalid Json"

  const Execute: string := "extension.execute"
  const Lint: string := "extension.lint"
  const Open: string := "extension.open"

  /** JavaScript truthiness of an optional string: defined and not empty. */
  predicate Truthy(t: Option<string>) {
    t.Some? && t.value != ""
  }

  /** The body names a file whose text was read (`em.File && em.File.Text`). */
  predicate HasFileText(info: MatchInfo) {
    info.file.Some? && Truthy(info.file.value.text)
  }

  /**
   * The lenses of one match. The source's last test, that the error text is
   * defined, is always true where it is reached, so a match with an error and
   * no file always gets the "Invalid Json" lens.
   */
  function LensesFor(em: Match): seq<Lens>
    reads em
  {
    var range := em.info.httpMethod.range;
    if em.info.error.text.None? then
      [Lens(range, RunQuery, Execute, Some(em))]
      + if !em.hasBody then []
        else if HasFileText(em.info) then [Lens(range, OpenFile, Open, Some(em))]
        else [Lens(range, AutoIndent, Lint, Some(em))]
    else if em.info.file.Some? then
      [Lens(range, if Truthy(em.info.file.value.text) then InvalidJsonFile else FileNotExist, "", None)]
    else
      [Lens(range, InvalidJson, "", None)]
  }

  /** The "Run Query" lens of a match. */
  function RunLens(em: Match): Lens {
    Lens(em.info.httpMethod.range, RunQuery, Execute, Some(em))
  }

  /** The lenses of a list of matches, match after match. */
  function AllLenses(ms: seq<Match>): seq<Lens>
    reads ms
  {
    if ms == [] then [] else AllLenses(ms[..|ms| - 1]) + LensesFor(ms[|ms| - 1])
  }

  /**
   * `provideCodeLenses`: the `forEach` over the matches of `esMatches`,
   * pushing each match's lenses onto `ret`.
   */
  method ProvideCodeLenses(esMatches: ElasticMatches) returns (ret: seq<Lens>)
    ensures ret == AllLenses(esMatches.matches)
  {
    var ms := esMatches.matches;
    ret := [];
    for t := 0 to |ms|
      invariant ret == AllLenses(ms[..t])
    {
      var em := ms[t];
      var range := em.info.httpMethod.range;
      if em.info.error.text.None? {
        ret := ret + [Lens(range, RunQuery, Execute, Some(em))];
        if em.hasBody {
          var command := (AutoIndent, Lint);
          if em.info.file.Some? && Truthy(em.info.file.value.text) {
            command := (OpenFile, Open);
          }
          ret := ret + [Lens(range, command.0, command.1, Some(em))];
        }
      } else {
        if em.info.file.Some? {
          var title := FileNotExist;
          if Truthy(em.info.file.value.text) {
            title := InvalidJsonFile;
          }
          ret := ret + [Lens(range, title, "", None)];
        } else {
          ret := ret + [Lens(range, InvalidJson, "", None)];
        }
      }
      assert ms[..t + 1][..t] == ms[..t];
    }
    assert ms[..|ms|] == ms;
  }

  /**
   * The decision table of one match: one or two lenses, all above the
   * method; a "Run Query" lens first exactly when there is no error; a second
   * lens exactly when there is no error and a body, opening the file when
   * the body names a file with text and indenting otherwise; a lens that
   * runs nothing, with no arguments, exactly when there is an error, telling
   * apart a missing file, an invalid file and an invalid body.
   */
  lemma LensesForTable(em: Match)
    ensures var r := LensesFor(em);
      && 1 <= |r| <= 2
      && (forall l :: l in r ==> l.range == em.info.httpMethod.range)
      && (r[0] == RunLens(em) <==> em.info.error.text.None?)
      && (|r| == 2 <==> em.info.error.text.None? && em.hasBody)
      && (|r| == 2 ==>
            && r[1] == Lens(em.info.httpMethod.range, if HasFileText(em.info) then OpenFile else AutoIndent,
                            if HasFileText(em.info) then Open else Lint, Some(em))
            && r[1].arguments == Some(em)
            && (r[1].command == Open <==> HasFileText(em.info))
            && (r[1].command == Lint <==> !HasFileText(em.info)))
      && (r[0].command == "" <==> em.info.error.text.Some?)
      && (r[0].command == "" ==>
            && r[0].arguments.None?
            && (r[0].title == FileNotExist <==> em.info.file.Some? && !Truthy(em.info.file.value.text))
            && (r[0].title == InvalidJsonFile <==> HasFileText(em.info))
            && (r[0].title == InvalidJson <==> em.info.file.None?))
  {
    assert RunQuery != InvalidJson && RunQuery != FileNotExist && RunQuery != InvalidJsonFile;
    assert FileNotExist != InvalidJsonFile && FileNotExist != InvalidJson && InvalidJsonFile != InvalidJson;
    assert Open != Lint;
  }

  /** At least one and at most two lenses per match. */
  lemma {:induction false} AllLensesCount(ms: seq<Match>)
    ensures |ms| <= |AllLenses(ms)| <= 2 * |ms|
    decreases |ms|
  {
    if ms != [] {
      AllLensesCount(ms[..|ms| - 1]);
      LensesForTable(ms[|ms| - 1]);
    }
  }

  /** Every lens sits above the method of some match. */
  lemma {:induction false} AllLensesRanges(ms: seq<Match>)
    ensures forall l :: l in AllLenses(ms) ==> exists t :: 0 <= t < |ms| && l.range == ms[t].info.httpMethod.range
    decreases |ms|
  {
    if ms != [] {
      var init := ms[..|ms| - 1];
      var em := ms[|ms| - 1];
      AllLensesRanges(init);
      LensesForTable(em);
      forall l | l in AllLenses(ms)
        ensures exists t :: 0 <= t < |ms| && l.range == ms[t].info.httpMethod.range
      {
        if l in AllLenses(init) {
          var t :| 0 <= t < |init| && l.range == init[t].info.httpMethod.range;
          assert ms[t] == init[t];
        } else {
          assert l in LensesFor(em);
        }
      }
    }
  }

  /** The "Run Query" lenses are exactly one per match without an error, carrying that match. */
  lemma {:induction false} AllLensesRunQuery(ms: seq<Match>)
    ensures forall t :: 0 <= t < |ms| && ms[t].info.error.text.None? ==> RunLens(ms[t]) in AllLenses(ms)
    ensures forall l :: l in AllLenses(ms) && l.command == Execute ==>
              exists t :: 0 <= t < |ms| && ms[t].info.error.text.None? && l == RunLens(ms[t])
    decreases |ms|
  {
    if ms != [] {
      var init := ms[..|ms| - 1];
      var em := ms[|ms| - 1];
      AllLensesRunQuery(init);
      LensesForTable(em);
      var r := AllLenses(ms);
      assert r == AllLenses(init) + LensesFor(em);
      forall t | 0 <= t < |ms| && ms[t].info.error.text.None?
        ensures RunLens(ms[t]) in r
      {
        if t < |init| {
          assert init[t] == ms[t];
        } else {
          assert LensesFor(em)[0] in r;
        }
      }
      forall l | l in r && l.command == Execute
        ensures exists t :: 0 <= t < |ms| && ms[t].info.error.text.None? && l == RunLens(ms[t])
      {
        assert Execute != Open && Execute != Lint && Execute != "";
        if l in AllLenses(init) {
          var t :| 0 <= t < |init| && init[t].info.error.text.None? && l == RunLens(init[t]);
          assert ms[t] == init[t];
        } else {
          assert l == LensesFor(em)[0];
          assert ms[|ms| - 1] == em;
        }
      }
    }
  }
}
