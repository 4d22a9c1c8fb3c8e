/**
 * JavaScript string primitives the core relies on: the whitespace class `\s`
 * (and `\S`, its complement) and `String.prototype.trim`, which removes the
 * same class of characters from both ends.
 */
module Text {
  import opened Wrappers

  /** ECMAScript WhiteSpace and LineTerminator code points: what `\s` matches and `trim` removes. */
  predicate IsWhitespace(c: char) {
    c == '\t' || c == '\n' || c == '\U{000B}' || c == '\U{000C}' || c == '\r' || c == ' '
    || c == '\U{00A0}' || c == '\U{1680}' || ('\U{2000}' <= c <= '\U{200A}')
    || c == '\U{2028}' || c == '\U{2029}' || c == '\U{202F}' || c == '\U{205F}'
    || c == '\U{3000}' || c == '\U{FEFF}'
  }

  /** `t` with its leading whitespace removed. */
  function TrimStart(t: string): (r: string)
    ensures |r| <= |t| && r == t[|t| - |r|..]
  {
    if t != [] && IsWhitespace(t[0]) then TrimStart(t[1..]) else t
  }

  /** `TrimStart` removes exactly the leading run of whitespace. */
  lemma {:induction false} TrimStartSpec(t: string)
    ensures var r := TrimStart(t);
      && (forall k :: 0 <= k < |t| - |r| ==> IsWhitespace(t[k]))
      && (r == [] || !IsWhitespace(r[0]))
    decreases |t|
  {
    if t != [] && IsWhitespace(t[0]) {
      TrimStartSpec(t[1..]);
    }
  }

  /** `t` with its trailing whitespace removed. */
  function TrimEnd(t: string): (r: string)
    ensures |r| <= |t| && r == t[..|r|]
  {
    if t != [] && IsWhitespace(t[|t| - 1]) then TrimEnd(t[..|t| - 1]) else t
  }

  /** `TrimEnd` removes exactly the trailing run of whitespace. */
  lemma {:induction false} TrimEndSpec(t: string)
    ensures var r := TrimEnd(t);
      && (forall k :: |r| <= k < |t| ==> IsWhitespace(t[k]))
      && (r == [] || !IsWhitespace(r[|r| - 1]))
    decreases |t|
  {
    if t != [] && IsWhitespace(t[|t| - 1]) {
      TrimEndSpec(t[..|t| - 1]);
    }
  }

  /** `String.prototype.trim`. */
  function Trim(t: string): string {
    TrimEnd(TrimStart(t))
  }

  /** The first character of `t` that is not whitespace, if there is one. */
  function FirstVisible(t: string): Option<char> {
    if t == [] then None
    else if IsWhitespace(t[0]) then FirstVisible(t[1..])
    else Some(t[0])
  }

  /** `t` has no visible character exactly when every character is whitespace. */
  lemma {:induction false} FirstVisibleNone(t: string)
    ensures FirstVisible(t).None? <==> forall k :: 0 <= k < |t| ==> IsWhitespace(t[k])
    decreases |t|
  {
    if t != [] {
      FirstVisibleNone(t[1..]);
      assert forall k :: 1 <= k < |t| ==> t[k] == t[1..][k - 1];
    }
  }

  /** The visible character `c` is the first one of `t` exactly when only whitespace precedes some `c` in `t`. */
  lemma {:induction false} FirstVisibleIs(t: string, c: char)
    requires !IsWhitespace(c)
    ensures FirstVisible(t) == Some(c)
        <==> exists k :: 0 <= k < |t| && t[k] == c && forall j :: 0 <= j < k ==> IsWhitespace(t[j])
    decreases |t|
  {
    if t != [] && IsWhitespace(t[0]) {
      var u := t[1..];
      FirstVisibleIs(u, c);
      if FirstVisible(t) == Some(c) {
        var k :| 0 <= k < |u| && u[k] == c && forall j :: 0 <= j < k ==> IsWhitespace(u[j]);
        assert forall j :: 1 <= j < k + 1 ==> t[j] == u[j - 1];
        assert t[k + 1] == c;
      }
      if exists k :: 0 <= k < |t| && t[k] == c && forall j :: 0 <= j < k ==> IsWhitespace(t[j]) {
        var k :| 0 <= k < |t| && t[k] == c && forall j :: 0 <= j < k ==> IsWhitespace(t[j]);
        assert k > 0;
        assert forall j :: 0 <= j < k - 1 ==> u[j] == t[j + 1];
        assert u[k - 1] == c;
      }
    } else if t != [] {
      if exists k :: 0 <= k < |t| && t[k] == c && forall j :: 0 <= j < k ==> IsWhitespace(t[j]) {
        var k :| 0 <= k < |t| && t[k] == c && forall j :: 0 <= j < k ==> IsWhitespace(t[j]);
        assert k == 0;
      }
    }
  }

  /** A line is blank (its trimmed text is empty) exactly when every character is whitespace. */
  lemma TrimEmptyIffAllWhitespace(t: string)
    ensures |Trim(t)| == 0 <==> forall k :: 0 <= k < |t| ==> IsWhitespace(t[k])
  {
    TrimFirst(t);
    FirstVisibleNone(t);
  }

  /**
   * The trimmed text starts with the visible character `c` exactly when `c` is
   * the first character of `t` that is not whitespace.
   */
  lemma TrimmedStartsWith(t: string, c: char)
    requires !IsWhitespace(c)
    ensures (|Trim(t)| > 0 && Trim(t)[0] == c)
        <==> exists k :: 0 <= k < |t| && t[k] == c && forall j :: 0 <= j < k ==> IsWhitespace(t[j])
  {
    TrimFirst(t);
    FirstVisibleIs(t, c);
  }

  /**
   * The trimmed text is empty exactly when `t` has no visible character, and
   * otherwise starts with the first visible character of `t`.
   */
  lemma {:induction false} TrimFirst(t: string)
    ensures |Trim(t)| == 0 <==> FirstVisible(t).None?
    ensures |Trim(t)| > 0 ==> Trim(t)[0] == FirstVisible(t).value
    decreases |t|
  {
    TrimStartSpec(t);
    TrimEndSpec(TrimStart(t));
    if t != [] && IsWhitespace(t[0]) {
      TrimFirst(t[1..]);
    }
  }
}
