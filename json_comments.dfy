/**
 * The JSON comment stripper of src/helpers.ts.
 *
 * The stripper walks a string once, tracking whether it is inside a
 * double-quoted string and whether it is inside a line comment or a block
 * comment, and removes the comments. In whitespace mode every comment
 * character that is not whitespace becomes a space (so offsets and line
 * breaks survive); in compact mode comment text is deleted.
 *
 * The specification is a per-character classification: `Kinds(s)` says of
 * each character whether it is plain text, part of a string literal or
 * part of a comment, and `Render` turns the classified string into the
 * output of either mode. `StripJsonComments` is the imperative scanner with
 * its `offset`/`result` bookkeeping, proved equal to that specification.
 */
module JsonComments {
  import opened Text

  // ----------------------------------------------------------------------
  // Escaped quotes
  // ----------------------------------------------------------------------

  /** The number of consecutive backslashes that end just before position `q`. */
  function BackslashRun(s: string, q: nat): (n: nat)
    ensures n <= q
    ensures q > |s| ==> n == 0
    ensures q <= |s| ==> forall k :: q - n <= k < q ==> s[k] == '\\'
    ensures q <= |s| && n < q ==> s[q - n - 1] != '\\'
  {
    if 0 < q <= |s| && s[q - 1] == '\\' then BackslashRun(s, q - 1) + 1 else 0
  }

  /** The quote at `q` is escaped: an odd number of backslashes precede it. */
  predicate Escaped(s: string, q: nat) {
    BackslashRun(s, q) % 2 == 1
  }

  /** Any maximal run of backslashes ending before `q` is the one `BackslashRun` counts. */
  lemma BackslashRunIsMaximalRun(s: string, q: nat, n: nat)
    requires n <= q <= |s|
    requires forall k :: q - n <= k < q ==> s[k] == '\\'
    requires n == q || s[q - n - 1] != '\\'
    ensures BackslashRun(s, q) == n
  {
  }

  /** `isEscaped`: walks left from the quote counting backslashes. */
  method IsEscaped(jsonString: string, quotePosition: nat) returns (escaped: bool)
    ensures escaped == Escaped(jsonString, quotePosition)
  {
    var index: int := quotePosition - 1;
    var backslashCount := 0;
    // jsonString[index] is undefined (never a backslash) outside the string
    while 0 <= index < |jsonString| && jsonString[index] == '\\'
      invariant -1 <= index < quotePosition
      invariant backslashCount == quotePosition - 1 - index
      invariant BackslashRun(jsonString, quotePosition) == backslashCount + BackslashRun(jsonString, index + 1)
      decreases index + 1
    {
      index := index - 1;
      backslashCount := backslashCount + 1;
    }
    escaped := backslashCount % 2 == 1;
  }

  // ----------------------------------------------------------------------
  // The scanner as a specification
  // ----------------------------------------------------------------------

  /** Where the scanner is: in plain text, in a string literal, or in a comment. */
  datatype Mode = Code | InString | LineComment | BlockComment

  /** What a character is: plain text, part of a string literal, or part of a comment. */
  datatype Kind = Plain | Quoted | Comment

  /** The kinds of a stretch of characters and the mode the scanner is in after it. */
  datatype Trace = Trace(kinds: seq<Kind>, final: Mode)

  /** `s[i]` exists and is `c`; an index past the end reads as undefined, never a character. */
  predicate At(s: string, i: nat, c: char) {
    i < |s| && s[i] == c
  }

  /**
   * One step of the scanner at position `i` in mode `m`: the one or two
   * characters it consumes, their kinds, and the next mode.
   */
  function Step(s: string, i: nat, m: Mode): (t: Trace)
    requires i < |s|
    ensures 1 <= |t.kinds| <= 2 && i + |t.kinds| <= |s|
  {
    match m
    case Code =>
      if s[i] == '"' && !Escaped(s, i) then Trace([Quoted], InString)
      else if s[i] == '/' && At(s, i + 1, '/') then Trace([Comment, Comment], LineComment)
      else if s[i] == '/' && At(s, i + 1, '*') then Trace([Comment, Comment], BlockComment)
      else Trace([Plain], Code)
    case InString =>
      if s[i] == '"' && !Escaped(s, i) then Trace([Quoted], Code) else Trace([Quoted], InString)
    case LineComment =>
      if s[i] == '\r' && At(s, i + 1, '\n') then Trace([Comment, Plain], Code)
      else if s[i] == '\n' then Trace([Plain], Code)
      else Trace([Comment], LineComment)
    case BlockComment =>
      if s[i] == '*' && At(s, i + 1, '/') then Trace([Comment, Comment], Code)
      else Trace([Comment], BlockComment)
  }

  /** The scanner run from position `i` in mode `m` to the end of `s`. */
  function Run(s: string, i: nat, m: Mode): (t: Trace)
    requires i <= |s|
    ensures |t.kinds| == |s| - i
    decreases |s| - i
  {
    if i == |s| then Trace([], m)
    else
      var st := Step(s, i, m);
      var rest := Run(s, i + |st.kinds|, st.final);
      Trace(st.kinds + rest.kinds, rest.final)
  }

  /** The kind of every character of `s`, scanning from the start in plain text. */
  function Kinds(s: string): (k: seq<Kind>)
    ensures |k| == |s|
  {
    Run(s, 0, Code).kinds
  }

  /** A comment run of length `n`. */
  function Comments(n: nat): (k: seq<Kind>)
    ensures |k| == n && forall j :: 0 <= j < n ==> k[j] == Comment
  {
    seq(n, _ => Comment)
  }

  // ----------------------------------------------------------------------
  // Output of the two modes
  // ----------------------------------------------------------------------

  /** A comment character in whitespace mode: kept if whitespace, a space otherwise. */
  function Blank(c: char): char {
    if IsWhitespace(c) then c else ' '
  }

  /** `stripWithWhitespace`: `t.replace(/\S/g, ' ')`. */
  function StripWithWhitespace(t: string): (r: string)
    ensures |r| == |t|
    ensures forall k :: 0 <= k < |t| ==> r[k] == if IsWhitespace(t[k]) then t[k] else ' '
  {
    if t == [] then [] else StripWithWhitespace(t[..|t| - 1]) + [Blank(t[|t| - 1])]
  }

  /** The `strip` the stripper picks: `stripWithWhitespace` or `stripWithoutWhitespace`. */
  function Strip(t: string, whitespace: bool): string {
    if whitespace then StripWithWhitespace(t) else ""
  }

  /** What one classified character becomes in the output. */
  function Piece(c: char, k: Kind, whitespace: bool): string {
    if k != Comment then [c] else if whitespace then [Blank(c)] else []
  }

  /** The output for `s` whose characters have kinds `k`. */
  function Render(s: string, k: seq<Kind>, whitespace: bool): string
    requires |s| == |k|
  {
    if s == [] then []
    else Render(s[..|s| - 1], k[..|s| - 1], whitespace) + Piece(s[|s| - 1], k[|s| - 1], whitespace)
  }

  /** The specification of `stripJsonComments(s, {whitespace})`. */
  function Stripped(s: string, whitespace: bool): string {
    Render(s, Kinds(s), whitespace)
  }

  /** Concatenation is associative. */
  lemma AppendAssoc<T>(a: seq<T>, b: seq<T>, c: seq<T>)
    ensures (a + b) + c == a + (b + c)
  {
  }

  lemma {:induction false} RenderAppend(s1: string, k1: seq<Kind>, s2: string, k2: seq<Kind>, whitespace: bool)
    requires |s1| == |k1| && |s2| == |k2|
    ensures Render(s1 + s2, k1 + k2, whitespace) == Render(s1, k1, whitespace) + Render(s2, k2, whitespace)
    decreases |s2|
  {
    if s2 == [] {
      assert s1 + s2 == s1 && k1 + k2 == k1;
    } else {
      var n := |s2| - 1;
      var s, k := s1 + s2, k1 + k2;
      assert s[..|s| - 1] == s1 + s2[..n];
      assert k[..|s| - 1] == k1 + k2[..n];
      assert s[|s| - 1] == s2[n] && k[|s| - 1] == k2[n];
      var p := Piece(s2[n], k2[n], whitespace);
      RenderAppend(s1, k1, s2[..n], k2[..n], whitespace);
      calc {
        Render(s, k, whitespace);
        Render(s1 + s2[..n], k1 + k2[..n], whitespace) + p;
        (Render(s1, k1, whitespace) + Render(s2[..n], k2[..n], whitespace)) + p;
        { AppendAssoc(Render(s1, k1, whitespace), Render(s2[..n], k2[..n], whitespace), p); }
        Render(s1, k1, whitespace) + (Render(s2[..n], k2[..n], whitespace) + p);
        Render(s1, k1, whitespace) + Render(s2, k2, whitespace);
      }
    }
  }

  lemma {:induction false} RenderKept(t: string, k: seq<Kind>, whitespace: bool)
    requires |t| == |k| && forall j :: 0 <= j < |k| ==> k[j] != Comment
    ensures Render(t, k, whitespace) == t
    decreases |t|
  {
    if t != [] {
      RenderKept(t[..|t| - 1], k[..|t| - 1], whitespace);
    }
  }

  lemma {:induction false} RenderComment(t: string, k: seq<Kind>, whitespace: bool)
    requires |t| == |k| && forall j :: 0 <= j < |k| ==> k[j] == Comment
    ensures Render(t, k, whitespace) == Strip(t, whitespace)
    decreases |t|
  {
    if t != [] {
      RenderComment(t[..|t| - 1], k[..|t| - 1], whitespace);
    }
  }

  /** Appending a stretch of kept characters to the rendered prefix. */
  lemma ExtendKept(s: string, k: seq<Kind>, a: nat, b: nat, whitespace: bool)
    requires |s| == |k| && a <= b <= |s|
    requires forall j :: a <= j < b ==> k[j] != Comment
    ensures Render(s[..b], k[..b], whitespace) == Render(s[..a], k[..a], whitespace) + s[a..b]
  {
    assert s[..b] == s[..a] + s[a..b];
    assert k[..b] == k[..a] + k[a..b];
    RenderAppend(s[..a], k[..a], s[a..b], k[a..b], whitespace);
    RenderKept(s[a..b], k[a..b], whitespace);
  }

  /** Appending a stretch of comment characters to the rendered prefix. */
  lemma ExtendComment(s: string, k: seq<Kind>, a: nat, b: nat, whitespace: bool)
    requires |s| == |k| && a <= b <= |s|
    requires forall j :: a <= j < b ==> k[j] == Comment
    ensures Render(s[..b], k[..b], whitespace) == Render(s[..a], k[..a], whitespace) + Strip(s[a..b], whitespace)
  {
    assert s[..b] == s[..a] + s[a..b];
    assert k[..b] == k[..a] + k[a..b];
    RenderAppend(s[..a], k[..a], s[a..b], k[a..b], whitespace);
    RenderComment(s[a..b], k[a..b], whitespace);
  }

  /** Unfolding one step of a run whose kinds are known. */
  lemma RunStep(s: string, i: nat, m: Mode, kinds: seq<Kind>)
    requires i < |s| == |kinds| && Run(s, i, m).kinds == kinds[i..]
    ensures var st := Step(s, i, m);
      && kinds[i..i + |st.kinds|] == st.kinds
      && Run(s, i + |st.kinds|, st.final).kinds == kinds[i + |st.kinds|..]
  {
    var st := Step(s, i, m);
    var rest := Run(s, i + |st.kinds|, st.final);
    assert kinds[i..] == st.kinds + rest.kinds;
    assert kinds[i..][..|st.kinds|] == kinds[i..i + |st.kinds|];
    assert kinds[i..][|st.kinds|..] == kinds[i + |st.kinds|..];
  }

  // ----------------------------------------------------------------------
  // The imperative stripper
  // ----------------------------------------------------------------------

  /** `isInsideComment`: `false`, `singleComment` or `multiComment`. */
  datatype CommentState = NoComment | SingleComment | MultiComment

  /** The scanner mode the two state variables of the loop stand for. */
  function ModeOf(isInsideString: bool, isInsideComment: CommentState): Mode {
    if isInsideString then InString
    else match isInsideComment
      case NoComment => Code
      case SingleComment => LineComment
      case MultiComment => BlockComment
  }

  /** Every character of `kinds` in `[a, b)` is a comment character exactly when `comment` holds. */
  ghost predicate Uniform(kinds: seq<Kind>, a: nat, b: nat, comment: bool)
    requires a <= b <= |kinds|
  {
    forall j :: a <= j < b ==> (kinds[j] == Comment <==> comment)
  }

  /**
   * The state of the stripper's loop before the character at `index`, given
   * the classification `kinds` of the whole string: the scanner from `index`
   * on, in the mode the flags stand for, produces the rest of `kinds`;
   * `result` is the output for everything before `offset`; and the pending
   * stretch from `offset` to `index` is all comment when inside a comment and
   * all kept text otherwise.
   */
  ghost predicate Inv(s: string, kinds: seq<Kind>, whitespace: bool, isInsideString: bool,
                      isInsideComment: CommentState, offset: nat, index: nat, result: string)
  {
    && |kinds| == |s|
    && offset <= index <= |s|
    && (isInsideString ==> isInsideComment == NoComment)
    && Run(s, index, ModeOf(isInsideString, isInsideComment)).kinds == kinds[index..]
    && result == Render(s[..offset], kinds[..offset], whitespace)
    && Uniform(kinds, offset, index, isInsideComment != NoComment)
  }

  /** The in-string flag after the quote test at the top of the loop body. */
  function Toggled(s: string, index: nat, isInsideString: bool, isInsideComment: CommentState): bool
    requires index < |s|
  {
    if isInsideComment == NoComment && s[index] == '"' && !Escaped(s, index) then !isInsideString
    else isInsideString
  }

  /** The loop's advance past the one or two characters of a step. */
  lemma Advance(s: string, kinds: seq<Kind>, whitespace: bool, inString: bool, comment: CommentState,
                offset: nat, index: nat, result: string, inString': bool, comment': CommentState)
    requires Inv(s, kinds, whitespace, inString, comment, offset, index, result) && index < |s|
    requires Step(s, index, ModeOf(inString, comment)).final == ModeOf(inString', comment')
    requires inString' ==> comment' == NoComment
    ensures var n := |Step(s, index, ModeOf(inString, comment)).kinds|;
      && index + n <= |s|
      && Run(s, index + n, ModeOf(inString', comment')).kinds == kinds[index + n..]
      && kinds[index..index + n] == Step(s, index, ModeOf(inString, comment)).kinds
  {
    RunStep(s, index, ModeOf(inString, comment), kinds);
  }

  /** No branch fires: a string character, plain text, or an ordinary comment character. */
  lemma StepOver(s: string, kinds: seq<Kind>, whitespace: bool, inString: bool, comment: CommentState,
                 offset: nat, index: nat, result: string)
    requires Inv(s, kinds, whitespace, inString, comment, offset, index, result) && index < |s|
    requires var t := Toggled(s, index, inString, comment);
      t || !(
        || (comment == NoComment && s[index] == '/' && (At(s, index + 1, '/') || At(s, index + 1, '*')))
        || (comment == SingleComment && (s[index] == '\n' || (s[index] == '\r' && At(s, index + 1, '\n'))))
        || (comment == MultiComment && s[index] == '*' && At(s, index + 1, '/')))
    ensures Inv(s, kinds, whitespace, Toggled(s, index, inString, comment), comment, offset, index + 1, result)
  {
    var t := Toggled(s, index, inString, comment);
    var st := Step(s, index, ModeOf(inString, comment));
    assert |st.kinds| == 1 && st.final == ModeOf(t, comment);
    assert st.kinds[0] == Comment <==> comment != NoComment;
    Advance(s, kinds, whitespace, inString, comment, offset, index, result, t, comment);
  }

  /** The `//` branch: flush the kept text and enter a line comment. */
  lemma OpenLineComment(s: string, kinds: seq<Kind>, whitespace: bool, offset: nat, index: nat, result: string)
    requires Inv(s, kinds, whitespace, false, NoComment, offset, index, result) && index < |s|
    requires s[index] == '/' && At(s, index + 1, '/')
    ensures Inv(s, kinds, whitespace, false, SingleComment, index, index + 1 + 1, result + s[offset..index])
  {
    assert Step(s, index, Code) == Trace([Comment, Comment], LineComment);
    Advance(s, kinds, whitespace, false, NoComment, offset, index, result, false, SingleComment);
    ExtendKept(s, kinds, offset, index, whitespace);
  }

  /** The block-comment opener branch (a slash, then a star): flush the kept text and enter a block comment. */
  lemma OpenBlockComment(s: string, kinds: seq<Kind>, whitespace: bool, offset: nat, index: nat, result: string)
    requires Inv(s, kinds, whitespace, false, NoComment, offset, index, result) && index < |s|
    requires s[index] == '/' && !At(s, index + 1, '/') && At(s, index + 1, '*')
    ensures Inv(s, kinds, whitespace, false, MultiComment, index, index + 1 + 1, result + s[offset..index])
  {
    assert Step(s, index, Code) == Trace([Comment, Comment], BlockComment);
    Advance(s, kinds, whitespace, false, NoComment, offset, index, result, false, MultiComment);
    ExtendKept(s, kinds, offset, index, whitespace);
  }

  /** The `\r\n` branch: strip the comment up to the `\r` included; the `\n` stays pending. */
  lemma CloseLineCommentCrLf(s: string, kinds: seq<Kind>, whitespace: bool, offset: nat, index: nat, result: string)
    requires Inv(s, kinds, whitespace, false, SingleComment, offset, index, result) && index < |s|
    requires s[index] == '\r' && At(s, index + 1, '\n')
    ensures Inv(s, kinds, whitespace, false, NoComment, index + 1, index + 1 + 1,
                result + Strip(s[offset..index + 1], whitespace))
  {
    assert Step(s, index, LineComment) == Trace([Comment, Plain], Code);
    Advance(s, kinds, whitespace, false, SingleComment, offset, index, result, false, NoComment);
    ExtendComment(s, kinds, offset, index + 1, whitespace);
  }

  /** The `\n` branch: strip the comment before the newline; the newline stays pending. */
  lemma CloseLineCommentLf(s: string, kinds: seq<Kind>, whitespace: bool, offset: nat, index: nat, result: string)
    requires Inv(s, kinds, whitespace, false, SingleComment, offset, index, result) && index < |s|
    requires s[index] == '\n'
    ensures Inv(s, kinds, whitespace, false, NoComment, index, index + 1, result + Strip(s[offset..index], whitespace))
  {
    assert Step(s, index, LineComment) == Trace([Plain], Code);
    Advance(s, kinds, whitespace, false, SingleComment, offset, index, result, false, NoComment);
    ExtendComment(s, kinds, offset, index, whitespace);
  }

  /** The block-comment closer branch (a star, then a slash): strip the comment through its closer. */
  lemma CloseBlockComment(s: string, kinds: seq<Kind>, whitespace: bool, offset: nat, index: nat, result: string)
    requires Inv(s, kinds, whitespace, false, MultiComment, offset, index, result) && index < |s|
    requires s[index] == '*' && At(s, index + 1, '/')
    ensures Inv(s, kinds, whitespace, false, NoComment, index + 1 + 1, index + 1 + 1,
                result + Strip(s[offset..index + 1 + 1], whitespace))
  {
    assert Step(s, index, BlockComment) == Trace([Comment, Comment], Code);
    Advance(s, kinds, whitespace, false, MultiComment, offset, index, result, false, NoComment);
    ExtendComment(s, kinds, offset, index + 1 + 1, whitespace);
  }

  /** At the end of the input the pending stretch is flushed, stripped when inside a comment. */
  lemma Finish(s: string, kinds: seq<Kind>, whitespace: bool, inString: bool, comment: CommentState, offset: nat, result: string)
    requires Inv(s, kinds, whitespace, inString, comment, offset, |s|, result)
    requires kinds == Kinds(s)
    ensures Stripped(s, whitespace)
         == result + (if comment != NoComment then Strip(s[offset..], whitespace) else s[offset..])
  {
    assert s[..|s|] == s && kinds[..|s|] == kinds;
    if comment != NoComment {
      ExtendComment(s, kinds, offset, |s|, whitespace);
    } else {
      ExtendKept(s, kinds, offset, |s|, whitespace);
    }
  }

  /** The variables the stripper's loop updates. */
  datatype LoopState = LoopState(isInsideString: bool, isInsideComment: CommentState, offset: nat, index: nat, result: string)

  /**
   * One pass of the loop body: the quote test, then the first of the six
   * branches whose condition holds.
   */
  function Transition(s: string, whitespace: bool, st: LoopState): LoopState
    requires st.offset <= st.index < |s|
  {
    var inString := Toggled(s, st.index, st.isInsideString, st.isInsideComment);
    var c := s[st.index];
    var (offset, index, result) := (st.offset, st.index, st.result);
    if inString then LoopState(inString, st.isInsideComment, offset, index + 1, result)
    else if st.isInsideComment == NoComment && c == '/' && At(s, index + 1, '/') then
      LoopState(false, SingleComment, index, index + 1 + 1, result + s[offset..index])
    else if st.isInsideComment == SingleComment && c == '\r' && At(s, index + 1, '\n') then
      LoopState(false, NoComment, index + 1, index + 1 + 1, result + Strip(s[offset..index + 1], whitespace))
    else if st.isInsideComment == SingleComment && c == '\n' then
      LoopState(false, NoComment, index, index + 1, result + Strip(s[offset..index], whitespace))
    else if st.isInsideComment == NoComment && c == '/' && At(s, index + 1, '*') then
      LoopState(false, MultiComment, index, index + 1 + 1, result + s[offset..index])
    else if st.isInsideComment == MultiComment && c == '*' && At(s, index + 1, '/') then
      LoopState(false, NoComment, index + 1 + 1, index + 1 + 1, result + Strip(s[offset..index + 1 + 1], whitespace))
    else LoopState(inString, st.isInsideComment, offset, index + 1, result)
  }

  /** Every pass of the loop body keeps the invariant. */
  lemma Preserved(s: string, kinds: seq<Kind>, whitespace: bool, st: LoopState)
    requires Inv(s, kinds, whitespace, st.isInsideString, st.isInsideComment, st.offset, st.index, st.result)
    requires st.index < |s|
    ensures var n := Transition(s, whitespace, st);
      Inv(s, kinds, whitespace, n.isInsideString, n.isInsideComment, n.offset, n.index, n.result)
  {
    var inString := Toggled(s, st.index, st.isInsideString, st.isInsideComment);
    var c := s[st.index];
    var (offset, index, result) := (st.offset, st.index, st.result);
    if inString {
      StepOver(s, kinds, whitespace, st.isInsideString, st.isInsideComment, offset, index, result);
    } else if st.isInsideComment == NoComment && c == '/' && At(s, index + 1, '/') {
      OpenLineComment(s, kinds, whitespace, offset, index, result);
    } else if st.isInsideComment == SingleComment && c == '\r' && At(s, index + 1, '\n') {
      CloseLineCommentCrLf(s, kinds, whitespace, offset, index, result);
    } else if st.isInsideComment == SingleComment && c == '\n' {
      CloseLineCommentLf(s, kinds, whitespace, offset, index, result);
    } else if st.isInsideComment == NoComment && c == '/' && At(s, index + 1, '*') {
      OpenBlockComment(s, kinds, whitespace, offset, index, result);
    } else if st.isInsideComment == MultiComment && c == '*' && At(s, index + 1, '/') {
      CloseBlockComment(s, kinds, whitespace, offset, index, result);
    } else {
      StepOver(s, kinds, whitespace, st.isInsideString, st.isInsideComment, offset, index, result);
    }
  }

  /** `stripJsonComments(jsonString, {whitespace})`. */
  method StripJsonComments(jsonString: string, whitespace: bool) returns (r: string)
    ensures r == Stripped(jsonString, whitespace)
  {
    ghost var kinds := Kinds(jsonString);
    var isInsideString := false;
    var isInsideComment := NoComment;
    var offset := 0;
    var result := "";
    var index := 0;
    while index < |jsonString|
      invariant Inv(jsonString, kinds, whitespace, isInsideString, isInsideComment, offset, index, result)
      decreases |jsonString| - index
    {
      ghost var before := LoopState(isInsideString, isInsideComment, offset, index, result);
      var currentCharacter := jsonString[index];

      if isInsideComment == NoComment && currentCharacter == '"' {
        var escaped := IsEscaped(jsonString, index);
        if !escaped {
          isInsideString := !isInsideString;
        }
      }
      assert isInsideString == Toggled(jsonString, index, before.isInsideString, before.isInsideComment);

      if isInsideString {
      } else if isInsideComment == NoComment && currentCharacter == '/' && At(jsonString, index + 1, '/') {
        result := result + jsonString[offset..index];
        offset := index;
        isInsideComment := SingleComment;
        index := index + 1;
      } else if isInsideComment == SingleComment && currentCharacter == '\r' && At(jsonString, index + 1, '\n') {
        index := index + 1;
        isInsideComment := NoComment;
        result := result + Strip(jsonString[offset..index], whitespace);
        offset := index;
      } else if isInsideComment == SingleComment && currentCharacter == '\n' {
        isInsideComment := NoComment;
        result := result + Strip(jsonString[offset..index], whitespace);
        offset := index;
      } else if isInsideComment == NoComment && currentCharacter == '/' && At(jsonString, index + 1, '*') {
        result := result + jsonString[offset..index];
        offset := index;
        isInsideComment := MultiComment;
        index := index + 1;
      } else if isInsideComment == MultiComment && currentCharacter == '*' && At(jsonString, index + 1, '/') {
        index := index + 1;
        isInsideComment := NoComment;
        result := result + Strip(jsonString[offset..index + 1], whitespace);
        offset := index + 1;
      }
      index := index + 1;
      assert LoopState(isInsideString, isInsideComment, offset, index, result) == Transition(jsonString, whitespace, before);
      Preserved(jsonString, kinds, whitespace, before);
    }

    Finish(jsonString, kinds, whitespace, isInsideString, isInsideComment, offset, result);
    r := result + (if isInsideComment != NoComment then Strip(jsonString[offset..], whitespace)
                   else jsonString[offset..]);
  }

  // ----------------------------------------------------------------------
  // Properties of the specification
  // ----------------------------------------------------------------------

  /** In whitespace mode each classified character is kept, or blanked when it is comment. */
  lemma {:induction false} RenderWhitespace(s: string, k: seq<Kind>)
    requires |s| == |k|
    ensures |Render(s, k, true)| == |s|
    ensures forall j :: 0 <= j < |s| ==>
      Render(s, k, true)[j] == if k[j] == Comment then Blank(s[j]) else s[j]
    decreases |s|
  {
    if s != [] {
      RenderWhitespace(s[..|s| - 1], k[..|s| - 1]);
    }
  }

  /**
   * Whitespace mode (the default) keeps the length of the input, and every
   * output character is the input character at the same index or a space that
   * replaces a non-whitespace comment character; in particular every line
   * break and every character outside comments is kept.
   */
  lemma WhitespaceModeKeepsOrBlanks(s: string)
    ensures |Stripped(s, true)| == |s|
    ensures forall j :: 0 <= j < |s| ==>
      || Stripped(s, true)[j] == s[j]
      || (Stripped(s, true)[j] == ' ' && !IsWhitespace(s[j]) && Kinds(s)[j] == Comment)
    ensures forall j :: 0 <= j < |s| && IsWhitespace(s[j]) ==> Stripped(s, true)[j] == s[j]
    ensures forall j :: 0 <= j < |s| && Kinds(s)[j] != Comment ==> Stripped(s, true)[j] == s[j]
  {
    RenderWhitespace(s, Kinds(s));
  }

  /** The positions of `k` that are not comment, in increasing order. */
  function KeptPositions(k: seq<Kind>): (pos: seq<nat>)
    ensures forall t :: 0 <= t < |pos| ==> pos[t] < |k| && k[pos[t]] != Comment
    ensures forall t, u :: 0 <= t < u < |pos| ==> pos[t] < pos[u]
    ensures forall j :: 0 <= j < |k| && k[j] != Comment ==> j in pos
    ensures |pos| <= |k|
  {
    if k == [] then []
    else KeptPositions(k[..|k| - 1]) + (if k[|k| - 1] != Comment then [|k| - 1] else [])
  }

  /** In compact mode the output is exactly the characters at the kept positions. */
  lemma {:induction false} RenderCompact(s: string, k: seq<Kind>)
    requires |s| == |k|
    ensures var pos := KeptPositions(k);
      |Render(s, k, false)| == |pos| && forall t :: 0 <= t < |pos| ==> Render(s, k, false)[t] == s[pos[t]]
    decreases |s|
  {
    if s != [] {
      RenderCompact(s[..|s| - 1], k[..|s| - 1]);
    }
  }

  /**
   * Compact mode outputs a subsequence of the input: the characters at an
   * increasing sequence of input positions, which are exactly the positions
   * outside comments.
   */
  lemma CompactIsSubsequence(s: string)
    ensures |Stripped(s, false)| <= |s|
    ensures var pos := KeptPositions(Kinds(s));
      && |Stripped(s, false)| == |pos|
      && (forall t :: 0 <= t < |pos| ==> pos[t] < |s| && Stripped(s, false)[t] == s[pos[t]])
      && (forall t, u :: 0 <= t < u < |pos| ==> pos[t] < pos[u])
      && (forall j :: 0 <= j < |s| ==> (j in pos <==> Kinds(s)[j] != Comment))
  {
    RenderCompact(s, Kinds(s));
  }

  /** A comment opener starts at position `t`: a slash followed by a slash or a star. */
  predicate OpensComment(s: string, t: nat) {
    t < |s| && s[t] == '/' && (At(s, t + 1, '/') || At(s, t + 1, '*'))
  }

  /**
   * Scanning in plain text or in a string, a comment character can only come
   * from a comment opener the scanner read outside a string.
   */
  lemma {:induction false} NoOpenerNoComment(s: string, p: nat, m: Mode)
    requires p <= |s| && (m == Code || m == InString)
    requires forall t :: p <= t < |s| && OpensComment(s, t) ==> Run(s, p, m).kinds[t - p] == Quoted
    ensures forall j :: 0 <= j < |s| - p ==> Run(s, p, m).kinds[j] != Comment
    decreases |s| - p
  {
    if p < |s| {
      var st := Step(s, p, m);
      var rest := Run(s, p + |st.kinds|, st.final);
      NoOpenerStep(s, p, m);
      forall t | p + 1 <= t < |s| && OpensComment(s, t)
        ensures rest.kinds[t - (p + 1)] == Quoted
      {
        assert Run(s, p, m).kinds[t - p] == rest.kinds[t - (p + 1)];
      }
      NoOpenerNoComment(s, p + 1, st.final);
    }
  }

  /** The step behind `NoOpenerNoComment`: one character, not comment, and still plain text or a string. */
  lemma NoOpenerStep(s: string, p: nat, m: Mode)
    requires p < |s| && (m == Code || m == InString)
    requires OpensComment(s, p) ==> Run(s, p, m).kinds[0] == Quoted
    ensures var st := Step(s, p, m);
      && |st.kinds| == 1 && st.kinds[0] != Comment && (st.final == Code || st.final == InString)
      && Run(s, p, m).kinds == st.kinds + Run(s, p + 1, st.final).kinds
  {
    var st := Step(s, p, m);
    if OpensComment(s, p) {
      assert Run(s, p, m).kinds[0] == st.kinds[0];
    }
  }

  /**
   * Input whose every comment opener lies inside a double-quoted string comes
   * back unchanged in both modes.
   */
  lemma UnchangedWithoutCommentOutsideStrings(s: string, whitespace: bool)
    requires forall t :: 0 <= t < |s| && OpensComment(s, t) ==> Kinds(s)[t] == Quoted
    ensures Stripped(s, whitespace) == s
  {
    NoOpenerNoComment(s, 0, Code);
    RenderKept(s, Kinds(s), whitespace);
  }

  /** In particular, input without any comment opener comes back unchanged. */
  lemma UnchangedWithoutCommentMarkers(s: string, whitespace: bool)
    requires forall t :: 0 <= t < |s| ==> !OpensComment(s, t)
    ensures Stripped(s, whitespace) == s
  {
    UnchangedWithoutCommentOutsideStrings(s, whitespace);
  }

  /**
   * Inside a string literal, every character but an unescaped quote keeps the
   * scanner in the string: the next character is part of the literal too.
   */
  lemma {:induction false} RunQuotedContinues(s: string, p: nat, m: Mode, i: nat)
    requires p <= i && i + 1 < |s|
    requires Run(s, p, m).kinds[i - p] == Quoted
    requires !(s[i] == '"' && !Escaped(s, i))
    ensures Run(s, p, m).kinds[i + 1 - p] == Quoted
    decreases i - p
  {
    var st := Step(s, p, m);
    var n := |st.kinds|;
    var rest := Run(s, p + n, st.final);
    assert Run(s, p, m).kinds == st.kinds + rest.kinds;
    if p + n <= i {
      assert Run(s, p, m).kinds[i - p] == rest.kinds[i - (p + n)];
      assert Run(s, p, m).kinds[i + 1 - p] == rest.kinds[i + 1 - (p + n)];
      RunQuotedContinues(s, p + n, st.final, i);
    } else {
      assert p == i && st == Trace([Quoted], InString);
      assert rest.kinds[0] == Step(s, i + 1, InString).kinds[0];
    }
  }

  /**
   * String protection: a string character other than an unescaped quote is
   * followed by another string character. So a comment opener inside a string
   * never starts a comment, and an escaped quote does not end the string.
   */
  lemma QuotedContinues(s: string, i: nat)
    requires i + 1 < |s| && Kinds(s)[i] == Quoted
    requires !(s[i] == '"' && !Escaped(s, i))
    ensures Kinds(s)[i + 1] == Quoted
  {
    RunQuotedContinues(s, 0, Code, i);
  }

  /** A comment opener read inside a string leaves both of its characters in the string. */
  lemma OpenerInStringStaysInString(s: string, i: nat)
    requires OpensComment(s, i) && Kinds(s)[i] == Quoted
    ensures Kinds(s)[i + 1] == Quoted
  {
    QuotedContinues(s, i);
  }

  /** A quote after an odd run of backslashes switches neither into nor out of a string. */
  lemma EscapedQuoteKeepsMode(s: string, i: nat, m: Mode)
    requires i < |s| && s[i] == '"' && Escaped(s, i) && (m == Code || m == InString)
    ensures Step(s, i, m).final == m
    ensures Step(s, i, m).kinds == if m == Code then [Plain] else [Quoted]
  {
  }

  /**
   * Scanning from position `p` in mode `m` reaches position `i` at a step
   * boundary, in mode `m'`.
   */
  ghost predicate Reaches(s: string, p: nat, i: nat, m: Mode, m': Mode)
    decreases i - p
  {
    && p <= i <= |s|
    && if p == i then m == m'
       else var st := Step(s, p, m); p + |st.kinds| <= i && Reaches(s, p + |st.kinds|, i, st.final, m')
  }

  /** The run from `p` continues, after a reached boundary `i`, as the run from `i`. */
  lemma {:induction false} ReachesRun(s: string, p: nat, i: nat, m: Mode, m': Mode)
    requires Reaches(s, p, i, m, m')
    ensures Run(s, p, m).kinds[i - p..] == Run(s, i, m').kinds
    decreases i - p
  {
    if p < i {
      var st := Step(s, p, m);
      var rest := Run(s, p + |st.kinds|, st.final);
      assert Run(s, p, m).kinds == st.kinds + rest.kinds;
      ReachesRun(s, p + |st.kinds|, i, st.final, m');
      assert Run(s, p, m).kinds[i - p..] == rest.kinds[i - (p + |st.kinds|)..];
    }
  }

  /** The output splits at a reached boundary into the output before it and the run after it. */
  lemma SplitAt(s: string, i: nat, m: Mode, whitespace: bool)
    requires Reaches(s, 0, i, Code, m)
    ensures Stripped(s, whitespace)
         == Render(s[..i], Kinds(s)[..i], whitespace) + Render(s[i..], Run(s, i, m).kinds, whitespace)
  {
    var k := Kinds(s);
    ReachesRun(s, 0, i, Code, m);
    assert k[i..] == Run(s, i, m).kinds;
    RenderSplit(s, k, i, whitespace);
  }

  /** The output splits at any position into the output before it and the output after it. */
  lemma RenderSplit(s: string, k: seq<Kind>, i: nat, whitespace: bool)
    requires |s| == |k| && i <= |s|
    ensures Render(s, k, whitespace) == Render(s[..i], k[..i], whitespace) + Render(s[i..], k[i..], whitespace)
  {
    assert s == s[..i] + s[i..] && k == k[..i] + k[i..];
    RenderAppend(s[..i], k[..i], s[i..], k[i..], whitespace);
  }

  /** A block comment without a closer (a star, then a slash) runs to the end of the input. */
  lemma {:induction false} BlockCommentToEnd(s: string, p: nat)
    requires p <= |s|
    requires forall j :: p <= j && j + 1 < |s| ==> !(s[j] == '*' && s[j + 1] == '/')
    ensures Run(s, p, BlockComment).kinds == Comments(|s| - p)
    decreases |s| - p
  {
    if p < |s| {
      BlockCommentToEnd(s, p + 1);
    }
  }

  /**
   * An unterminated block comment: when the scanner meets a block-comment
   * opener in plain text and no closer follows, the rest of the input is
   * stripped, blanked in whitespace mode and deleted in compact mode.
   */
  lemma UnterminatedBlockComment(s: string, i: nat, whitespace: bool)
    requires Reaches(s, 0, i, Code, Code) && i + 1 < |s| && s[i] == '/' && s[i + 1] == '*'
    requires forall j :: i + 2 <= j && j + 1 < |s| ==> !(s[j] == '*' && s[j + 1] == '/')
    ensures Stripped(s, whitespace) == Render(s[..i], Kinds(s)[..i], whitespace) + Strip(s[i..], whitespace)
  {
    SplitAt(s, i, Code, whitespace);
    BlockCommentToEnd(s, i + 2);
    assert Run(s, i, Code).kinds == Comments(|s| - i);
    RenderComment(s[i..], Run(s, i, Code).kinds, whitespace);
  }

  /**
   * A line comment in progress at `p` ends at the first line feed `j`: the
   * characters before it are comment (a carriage return right before it
   * included) and the line feed itself is plain text.
   */
  lemma {:induction false} LineCommentRun(s: string, p: nat, j: nat)
    requires p <= j < |s| && s[j] == '\n'
    requires forall t :: p <= t < j ==> s[t] != '\n'
    ensures Run(s, p, LineComment).kinds == Comments(j - p) + ([Plain] + Run(s, j + 1, Code).kinds)
    decreases j - p
  {
    var tail := [Plain] + Run(s, j + 1, Code).kinds;
    if p == j || (s[p] == '\r' && p + 1 == j) {
      LineCommentEnds(s, p, j);
      CommentsPrefix(j - p, tail);
    } else {
      assert s[p] != '\n';
      LineCommentGoesOn(s, p);
      LineCommentRun(s, p + 1, j);
      CommentsCons(j - (p + 1), tail);
    }
  }

  /** A line feed, or a carriage return right before it, ends a line comment. */
  lemma LineCommentEnds(s: string, p: nat, j: nat)
    requires p <= j < |s| && s[j] == '\n' && (p == j || (s[p] == '\r' && p + 1 == j))
    ensures Run(s, p, LineComment).kinds
         == (if p == j then [] else [Comment]) + ([Plain] + Run(s, j + 1, Code).kinds)
  {
  }

  /** Any other character continues the line comment. */
  lemma LineCommentGoesOn(s: string, p: nat)
    requires p < |s| && s[p] != '\n' && !(s[p] == '\r' && At(s, p + 1, '\n'))
    ensures Run(s, p, LineComment).kinds == [Comment] + Run(s, p + 1, LineComment).kinds
  {
  }

  /** Comment runs of length 0 and 1 in front of `tail`. */
  lemma CommentsPrefix(n: nat, tail: seq<Kind>)
    requires n <= 1
    ensures Comments(n) + tail == if n == 0 then tail else [Comment] + tail
  {
    assert Comments(n) == if n == 0 then [] else [Comment];
  }

  /** One more comment character in front of a comment run. */
  lemma CommentsCons(n: nat, tail: seq<Kind>)
    ensures [Comment] + (Comments(n) + tail) == Comments(n + 1) + tail
  {
    assert [Comment] + Comments(n) == Comments(n + 1);
  }

  /** The kinds of a line comment: its two-character opener, then the rest of the comment. */
  lemma OpenedLineComment(n: nat, rest: seq<Kind>)
    ensures [Comment, Comment] + (Comments(n) + ([Plain] + rest)) == Comments(n + 2) + [Plain] + rest
  {
    assert [Comment, Comment] + Comments(n) == Comments(n + 2);
  }

  /** The output from a `//` met in plain text up to the end of the input. */
  lemma RenderLineComment(s: string, i: nat, j: nat, whitespace: bool)
    requires i + 1 < j < |s| && s[i] == '/' && s[i + 1] == '/'
    requires s[j] == '\n' && forall t :: i <= t < j ==> s[t] != '\n'
    ensures Render(s[i..], Run(s, i, Code).kinds, whitespace)
         == Strip(s[i..j], whitespace) + "\n" + Render(s[j + 1..], Run(s, j + 1, Code).kinds, whitespace)
  {
    var rest := Run(s, j + 1, Code).kinds;
    var n := j - (i + 2);
    OpensLineComment(s, i);
    LineCommentRun(s, i + 2, j);
    OpenedLineComment(n, rest);
    assert n + 2 == |s[i..j]|;
    SplitAround(s, i, j);
    RenderCommentThenPlain(s[i..j], s[j], s[j + 1..], rest, whitespace);
  }

  /** A `//` in plain text opens a line comment; both its characters are comment. */
  lemma OpensLineComment(s: string, i: nat)
    requires i + 1 < |s| && s[i] == '/' && s[i + 1] == '/'
    ensures Run(s, i, Code).kinds == [Comment, Comment] + Run(s, i + 2, LineComment).kinds
  {
    assert Step(s, i, Code) == Trace([Comment, Comment], LineComment);
  }

  /** The suffix from `i` is the stretch up to `j`, the character at `j`, and the rest. */
  lemma SplitAround<T>(s: seq<T>, i: nat, j: nat)
    requires i <= j < |s|
    ensures s[i..] == s[i..j] + [s[j]] + s[j + 1..]
  {
  }

  /** Rendering a comment stretch, one plain character and the rest. */
  lemma RenderCommentThenPlain(a: string, c: char, b: string, kb: seq<Kind>, whitespace: bool)
    requires |b| == |kb|
    ensures Render(a + [c] + b, Comments(|a|) + [Plain] + kb, whitespace)
         == Strip(a, whitespace) + [c] + Render(b, kb, whitespace)
  {
    RenderAppend(a + [c], Comments(|a|) + [Plain], b, kb, whitespace);
    RenderAppend(a, Comments(|a|), [c], [Plain], whitespace);
    RenderComment(a, Comments(|a|), whitespace);
    assert Render([c], [Plain], whitespace) == [c];
  }

  /**
   * A `//` comment met in plain text and ended by the line feed at `j`: the
   * comment is stripped and the line feed is kept, in both modes.
   */
  lemma LineCommentKeepsNewline(s: string, i: nat, j: nat, whitespace: bool)
    requires Reaches(s, 0, i, Code, Code) && i + 1 < j < |s| && s[i] == '/' && s[i + 1] == '/'
    requires s[j] == '\n' && forall t :: i <= t < j ==> s[t] != '\n'
    ensures Stripped(s, whitespace)
         == Render(s[..i], Kinds(s)[..i], whitespace)
            + (Strip(s[i..j], whitespace) + "\n" + Render(s[j + 1..], Run(s, j + 1, Code).kinds, whitespace))
  {
    SplitAt(s, i, Code, whitespace);
    RenderLineComment(s, i, j, whitespace);
  }

  /**
   * A `//` comment ended by `\r\n`: compact mode drops the carriage return
   * with the comment and keeps the line feed; whitespace mode keeps both.
   */
  lemma CrLfLineComment(s: string, i: nat, j: nat)
    requires Reaches(s, 0, i, Code, Code) && i + 1 < j - 1 && j < |s| && s[i] == '/' && s[i + 1] == '/'
    requires s[j - 1] == '\r' && s[j] == '\n' && forall t :: i <= t < j ==> s[t] != '\n'
    ensures Stripped(s, false)
         == Render(s[..i], Kinds(s)[..i], false) + ("\n" + Render(s[j + 1..], Run(s, j + 1, Code).kinds, false))
    ensures var ws := Stripped(s, true); |ws| == |s| && ws[j - 1] == '\r' && ws[j] == '\n'
  {
    LineCommentKeepsNewline(s, i, j, false);
    assert Strip(s[i..j], false) + "\n" == "\n";
    WhitespaceModeKeepsOrBlanks(s);
  }
}
