/**
 * The two `Matcher.matches()` patterns that pull fields out of the downloaded
 * JSON text, stated without a regex engine:
 *
 *   title:   .*"title":\s*"([^"]+)".*
 *   author:  .*"author": "([^"]*)".*
 *
 * `matches()` must consume the whole body. `.` refuses line terminators, so
 * everything before the opener and after the closing quote lies on one line;
 * the group itself (`[^"]`) and, for the title, the gap (`\s`) may cross lines.
 * Given where the opener starts, the rest of the match is forced (the gap is
 * all Java whitespace up to a quote, the group runs to the next quote), so a
 * match is fixed by its start. The greedy leading `.*` makes the engine settle
 * on the match that starts LAST.
 */
module FieldCapture {
  import opened Wrappers
  import opened JavaString

  datatype Field = Title | Author

  /** `\s` as Java SE specifies it: space, tab, newline, vertical tab, form feed, carriage return. */
  predicate IsJavaSpace(c: char) {
    c == ' ' || c == '\t' || c == '\n' || c == '\U{B}' || c == '\U{C}' || c == '\r'
  }

  /** The chars `.` does not match without DOTALL, as Java SE specifies it. */
  predicate IsLineTerminator(c: char) {
    c == '\n' || c == '\r' || c == '\U{85}' || c == '\U{2028}' || c == '\U{2029}'
  }

  /** Text that a `.*` can consume entirely. */
  predicate SingleLine(s: string) {
    forall t :: 0 <= t < |s| ==> !IsLineTerminator(s[t])
  }

  const TitleLabel: string := "\"title\":"
  const AuthorOpener: string := "\"author\": \""

  /** `o` is what the pattern of `f` matches before its group, opening quote included. */
  predicate IsOpener(f: Field, o: string) {
    match f
    case Title =>
      |o| > |TitleLabel| && o[..|TitleLabel|] == TitleLabel && o[|o| - 1] == '"'
      && forall t :: |TitleLabel| <= t < |o| - 1 ==> IsJavaSpace(o[t])
    case Author => o == AuthorOpener
  }

  /** `[^"]+` for the title, `[^"]*` for the author. */
  function MinGroupLength(f: Field): nat {
    match f
    case Title => 1
    case Author => 0
  }

  /**
   * The whole of `s` matches the pattern of `f` with the opener at `s[i..j]`,
   * the captured group at `s[j..k]` and the closing quote at `s[k]`.
   */
  predicate IsMatch(s: string, f: Field, i: nat, j: nat, k: nat)
    ensures IsMatch(s, f, i, j, k) ==>
      && 0 < j <= k < |s| && s[j - 1] == '"' && s[k] == '"'
      && '"' !in s[j..k] && |s[j..k]| >= MinGroupLength(f)
  {
    i <= j <= k < |s|
    && SingleLine(s[..i])
    && IsOpener(f, s[i..j])
    && k - j >= MinGroupLength(f)
    && (forall t :: j <= t < k ==> s[t] != '"')
    && s[k] == '"'
    && SingleLine(s[k + 1..])
  }

  /** Index just past the first non-space char at or after `j`. */
  function SkipSpaces(s: string, j: nat): (r: nat)
    requires j <= |s|
    ensures j <= r <= |s|
    ensures forall t :: j <= t < r ==> IsJavaSpace(s[t])
    ensures r < |s| ==> !IsJavaSpace(s[r])
    decreases |s| - j
  {
    if j == |s| || !IsJavaSpace(s[j]) then j else SkipSpaces(s, j + 1)
  }

  /** Where the group of `f` begins when an opener starts at `i`: the only such place. */
  function OpenerEnd(s: string, f: Field, i: nat): (r: Option<nat>)
    requires i <= |s|
    ensures r.Some? ==> i <= r.value <= |s| && IsOpener(f, s[i..r.value])
    ensures forall j :: i <= j <= |s| && IsOpener(f, s[i..j]) ==> r == Some(j)
  {
    match f
    case Title =>
      var n := |TitleLabel|;
      if i + n <= |s| && s[i..i + n] == TitleLabel then
        var w := SkipSpaces(s, i + n);
        if w < |s| && s[w] == '"' then
          assert s[i..w + 1][..n] == s[i..i + n];
          Some(w + 1)
        else
          OpenerAbsent(s, i, w);
          None
      else
        assert forall j :: i <= j <= |s| && IsOpener(f, s[i..j]) ==> s[i..j][..n] == s[i..i + n];
        None
    case Author =>
      var n := |AuthorOpener|;
      if i + n <= |s| && s[i..i + n] == AuthorOpener then Some(i + n) else None
  }

  /** A title opener at `i` ends with the first quote after the label and the spaces. */
  lemma OpenerAbsent(s: string, i: nat, w: nat)
    requires i + |TitleLabel| <= w <= |s|
    requires s[i..i + |TitleLabel|] == TitleLabel
    requires forall t :: i + |TitleLabel| <= t < w ==> IsJavaSpace(s[t])
    requires w < |s| ==> !IsJavaSpace(s[w])
    ensures forall j :: i <= j <= |s| && IsOpener(Title, s[i..j]) ==> j == w + 1 && s[w] == '"'
  {
    forall j | i <= j <= |s| && IsOpener(Title, s[i..j])
      ensures j == w + 1 && s[w] == '"'
    {
      var o := s[i..j];
      assert s[j - 1] == o[|o| - 1] == '"';
    }
  }

  /** The match of `f` starting at `i`, as the group's bounds, if there is one. */
  function MatchAt(s: string, f: Field, i: nat): (r: Option<(nat, nat)>)
    requires i <= |s|
    ensures r.Some? ==> IsMatch(s, f, i, r.value.0, r.value.1)
    ensures forall j: nat, k: nat :: IsMatch(s, f, i, j, k) ==> r == Some((j, k))
  {
    if !SingleLine(s[..i]) then None
    else
      match OpenerEnd(s, f, i)
      case None => None
      case Some(j) =>
        var k := IndexOf(s, '"', j);
        if k < |s| && k - j >= MinGroupLength(f) && SingleLine(s[k + 1..]) then Some((j, k)) else None
  }

  /** The match of `f` with the largest start below `n`. */
  function LastMatch(s: string, f: Field, n: nat): (r: Option<(nat, nat, nat)>)
    requires n <= |s|
    ensures r.Some? ==> r.value.0 < n && IsMatch(s, f, r.value.0, r.value.1, r.value.2)
    ensures r.Some? ==> forall i: nat, j: nat, k: nat :: r.value.0 < i < n ==> !IsMatch(s, f, i, j, k)
    ensures r.None? ==> forall i: nat, j: nat, k: nat :: i < n ==> !IsMatch(s, f, i, j, k)
  {
    if n == 0 then None
    else
      match MatchAt(s, f, n - 1)
      case Some((j, k)) => Some((n - 1, j, k))
      case None => LastMatch(s, f, n - 1)
  }

  /**
   * `group(1)` after `matches()` succeeds, or `None` when the body does not
   * match: the group of the match that starts last.
   */
  function Capture(s: string, f: Field): (g: Option<string>)
    ensures g.None? <==> forall i: nat, j: nat, k: nat :: !IsMatch(s, f, i, j, k)
    ensures g.Some? ==> exists i: nat, j: nat, k: nat :: IsMatch(s, f, i, j, k) && g.value == s[j..k]
                         && forall i': nat, j': nat, k': nat :: i < i' ==> !IsMatch(s, f, i', j', k')
    ensures g.Some? ==> |g.value| >= MinGroupLength(f) && '"' !in g.value
  {
    match LastMatch(s, f, |s|)
    case None => None
    case Some((i, j, k)) => Some(s[j..k])
  }

  /** A match with no match starting after it is the one `Capture` reports. */
  lemma CaptureOfLastMatch(s: string, f: Field, i: nat, j: nat, k: nat)
    requires IsMatch(s, f, i, j, k)
    requires forall i': nat, j': nat, k': nat :: i < i' ==> !IsMatch(s, f, i', j', k')
    ensures Capture(s, f) == Some(s[j..k])
  {
    var g := Capture(s, f);
    var i2: nat, j2: nat, k2: nat :| IsMatch(s, f, i2, j2, k2) && g.value == s[j2..k2]
      && forall i': nat, j': nat, k': nat :: i2 < i' ==> !IsMatch(s, f, i', j', k');
    assert i2 == i;
    assert MatchAt(s, f, i) == Some((j, k)) == Some((j2, k2));
  }

  /** The captured group is a piece of the body, so it holds no char the body lacks. */
  lemma CaptureLacks(s: string, f: Field, c: char)
    requires c !in s
    ensures Capture(s, f).Some? ==> c !in Capture(s, f).value
  {
    match LastMatch(s, f, |s|)
    case None =>
    case Some((i, j, k)) =>
      assert forall t :: 0 <= t < k - j ==> s[j..k][t] == s[j + t];
  }
}
