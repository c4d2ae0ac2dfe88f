/**
 * What the extraction promises about whole bodies: which bodies give no haiku,
 * what a successful result looks like, and the round trip from a well-formed
 * post back to its haiku and author.
 */
module ParseProperties {
  import opened Wrappers
  import opened JavaString
  import opened FieldCapture
  import opened HaikuDownload

  /** A haiku line that survives extraction unchanged. */
  predicate IsLineText(t: string) {
    t != "" && IsTrimmed(t) && '/' !in t && '"' !in t && SingleLine(t) && |t| <= MaxLineLength
  }

  /** An author name that survives extraction unchanged (it may be empty). */
  predicate IsAuthorText(x: string) {
    IsTrimmed(x) && '"' !in x && SingleLine(x) && |x| <= MaxLineLength
  }

  const TitleOpen: string := "{\"title\": \""
  const AuthorOpen: string := "\", \"author\": \""
  const BodyClose: string := "\"}"

  /** The JSON text `{"title": "a/b/c", "author": "x"}`. */
  function Post(a: string, b: string, c: string, x: string): string {
    TitleOpen + Join([a, b, c], '/') + AuthorOpen + x + BodyClose
  }

  /**
   * `s` is `TitleOpen + abc + AuthorOpen + x + BodyClose`, described region by
   * region. Here and in the lemmas below the region bounds are numbers, which
   * `PostOffsets` checks:
   * `|TitleOpen|` is 11, so the title text starts at 11; `|AuthorOpen|` is 14,
   * so the author opener `"author": "` starts at `14 + |abc|` (3 chars after the
   * title text) and the author text at `25 + |abc|`; `|BodyClose|` is 2, so
   * the whole body is `27 + |abc| + |x|` long.
   */
  predicate PostShape(s: string, abc: string, x: string) {
    && |s| == 27 + |abc| + |x|
    && s[..11] == TitleOpen
    && s[11..11 + |abc|] == abc
    && s[11 + |abc|..25 + |abc|] == AuthorOpen
    && s[25 + |abc|..25 + |abc| + |x|] == x
    && s[25 + |abc| + |x|..] == BodyClose
  }

  /** The region bounds used by the lemmas below, worked out. */
  lemma PostOffsets()
    ensures |TitleOpen| == 11 && |AuthorOpen| == 14 && |BodyClose| == 2
    ensures AuthorOpen[3..] == AuthorOpener
  {
  }

  lemma PostHasShape(a: string, b: string, c: string, x: string)
    ensures PostShape(Post(a, b, c, x), Join([a, b, c], '/'), x)
  {
    var abc := Join([a, b, c], '/');
    var s := Post(a, b, c, x);
    var l := |abc|;
    assert s == TitleOpen + abc + AuthorOpen + x + BodyClose;
    assert s[..11] == TitleOpen;
    assert s[11..11 + l] == abc;
    assert s[11 + l..25 + l] == AuthorOpen;
    assert s[25 + l..25 + l + |x|] == x;
  }

  /** The chars of the fixed text before the title. */
  lemma TitleOpenChars(s: string, abc: string, x: string)
    requires PostShape(s, abc, x)
    ensures s[0] == '{' && s[1] == '"' && s[2] == 't' && s[7] == '"' && s[8] == ':' && s[9] == ' ' && s[10] == '"'
    ensures s[1..11] == "\"title\": \""
  {
    assert s[..11][1..] == s[1..11];
  }

  /** The chars of the title text and of the author text. */
  lemma TextChars(s: string, abc: string, x: string)
    requires PostShape(s, abc, x)
    ensures forall t :: 0 <= t < |abc| ==> s[11 + t] == abc[t]
    ensures forall t :: 0 <= t < |x| ==> s[25 + |abc| + t] == x[t]
  {
    var l := |abc|;
    forall t | 0 <= t < l ensures s[11 + t] == abc[t] {
      assert s[11..11 + l][t] == s[11 + t];
    }
    forall t | 0 <= t < |x| ensures s[25 + l + t] == x[t] {
      assert s[25 + l..25 + l + |x|][t] == s[25 + l + t];
    }
  }

  /** The chars of the fixed text between the title and the author. */
  lemma AuthorOpenChars(s: string, abc: string, x: string)
    requires PostShape(s, abc, x)
    ensures var l := |abc|;
      && s[11 + l] == '"' && s[12 + l] == ',' && s[13 + l] == ' ' && s[14 + l] == '"'
      && s[15 + l] == 'a' && s[21 + l] == '"' && s[22 + l] == ':' && s[23 + l] == ' ' && s[24 + l] == '"'
      && s[14 + l..25 + l] == AuthorOpener
      && SingleLine(s[11 + |abc|..25 + |abc|])
  {
    var l := |abc|;
    var m := s[11 + l..25 + l];
    assert m == AuthorOpen;
    assert s[11 + l] == m[0] && s[12 + l] == m[1] && s[13 + l] == m[2] && s[14 + l] == m[3];
    assert s[15 + l] == m[4] && s[21 + l] == m[10] && s[22 + l] == m[11] && s[23 + l] == m[12] && s[24 + l] == m[13];
    assert s[14 + l..25 + l] == m[3..];
  }

  /** The chars of the fixed text after the author. */
  lemma BodyCloseChars(s: string, abc: string, x: string)
    requires PostShape(s, abc, x)
    ensures s[25 + |abc| + |x|] == '"' && s[26 + |abc| + |x|] == '}'
  {
    var e := s[25 + |abc| + |x|..];
    assert e == BodyClose;
    assert s[25 + |abc| + |x|] == e[0] && s[26 + |abc| + |x|] == e[1];
  }

  /** What `Post` needs of its title text and author text. */
  predicate TextsFit(abc: string, x: string) {
    abc != "" && '"' !in abc && '/' in abc && SingleLine(abc) && '"' !in x && SingleLine(x)
  }

  /** Everything from the end of the title on lies on one line. */
  lemma TailSingleLine(s: string, abc: string, x: string, from: nat)
    requires PostShape(s, abc, x) && TextsFit(abc, x)
    requires 11 + |abc| <= from <= |s|
    ensures SingleLine(s[from..])
  {
    var l := |abc|;
    AuthorOpenChars(s, abc, x);
    TextChars(s, abc, x);
    BodyCloseChars(s, abc, x);
    var rest := s[from..];
    forall t | 0 <= t < |rest|
      ensures !IsLineTerminator(rest[t])
    {
      var p := from + t;
      assert rest[t] == s[p];
      if p < 25 + l {
        assert s[p] == s[11 + l..25 + l][p - 11 - l];
      } else if p < 25 + l + |x| {
        assert s[p] == x[p - 25 - l];
      }
    }
  }

  /** Everything before the author opener lies on one line. */
  lemma HeadSingleLine(s: string, abc: string, x: string)
    requires PostShape(s, abc, x) && TextsFit(abc, x)
    ensures SingleLine(s[..14 + |abc|])
  {
    var l := |abc|;
    TitleOpenChars(s, abc, x);
    AuthorOpenChars(s, abc, x);
    TextChars(s, abc, x);
    var head := s[..14 + l];
    forall t | 0 <= t < |head|
      ensures !IsLineTerminator(head[t])
    {
      assert head[t] == s[t];
      if t < 11 {
        assert s[t] == s[..11][t] == TitleOpen[t];
      } else if t < 11 + l {
        assert s[t] == abc[t - 11];
      } else {
        assert s[t] == s[11 + l..25 + l][t - 11 - l];
      }
    }
  }

  /** The title pattern matches with its opener at index 1. */
  lemma TitleMatchInPost(s: string, abc: string, x: string)
    requires PostShape(s, abc, x) && TextsFit(abc, x)
    ensures IsMatch(s, Title, 1, 11, 11 + |abc|)
  {
    var l := |abc|;
    TitleOpenChars(s, abc, x);
    TextChars(s, abc, x);
    AuthorOpenChars(s, abc, x);
    TailSingleLine(s, abc, x, 12 + l);
    assert s[..1] == "{";
    assert s[1..11][..8] == TitleLabel;
    forall t | 11 <= t < 11 + l ensures s[t] != '"' {
      assert s[t] == abc[t - 11];
    }
  }

  /** The author pattern matches with its opener where `AuthorOpen` puts it. */
  lemma AuthorMatchInPost(s: string, abc: string, x: string)
    requires PostShape(s, abc, x) && TextsFit(abc, x)
    ensures IsMatch(s, Author, 14 + |abc|, 25 + |abc|, 25 + |abc| + |x|)
  {
    var l := |abc|;
    TextChars(s, abc, x);
    AuthorOpenChars(s, abc, x);
    BodyCloseChars(s, abc, x);
    HeadSingleLine(s, abc, x);
    TailSingleLine(s, abc, x, 26 + l + |x|);
    forall t | 25 + l <= t < 25 + l + |x| ensures s[t] != '"' {
      assert s[t] == x[t - 25 - l];
    }
  }

  /** A title opener at `i` spells out `"title":` from `i` on. */
  lemma TitleOpenerChars(s: string, i: nat, j: nat)
    requires i <= j <= |s|
    ensures IsOpener(Title, s[i..j]) ==>
      && i + 9 <= j
      && s[i] == '"' && s[i + 1] == 't' && s[i + 2] == 'i' && s[i + 3] == 't'
      && s[i + 4] == 'l' && s[i + 5] == 'e' && s[i + 6] == '"' && s[i + 7] == ':'
  {
    if IsOpener(Title, s[i..j]) {
      var o := s[i..j];
      assert o[..8] == TitleLabel;
      assert s[i] == o[0] && s[i + 1] == o[1] && s[i + 2] == o[2] && s[i + 3] == o[3];
      assert s[i + 4] == o[4] && s[i + 5] == o[5] && s[i + 6] == o[6] && s[i + 7] == o[7];
    }
  }

  /** An author opener at `i` spells out `"author": "` from `i` on. */
  lemma AuthorOpenerChars(s: string, i: nat, j: nat)
    requires i <= j <= |s|
    ensures IsOpener(Author, s[i..j]) ==>
      && j == i + 11
      && s[i] == '"' && s[i + 1] == 'a' && s[i + 2] == 'u' && s[i + 3] == 't' && s[i + 4] == 'h'
      && s[i + 5] == 'o' && s[i + 6] == 'r' && s[i + 7] == '"' && s[i + 8] == ':'
  {
    if IsOpener(Author, s[i..j]) {
      var o := s[i..j];
      assert s[i] == o[0] && s[i + 1] == o[1] && s[i + 2] == o[2] && s[i + 3] == o[3] && s[i + 4] == o[4];
      assert s[i + 5] == o[5] && s[i + 6] == o[6] && s[i + 7] == o[7] && s[i + 8] == o[8];
    }
  }

  /** No title opener starts inside the fixed text before the title, after index 1. */
  lemma NoTitleInTitleOpen(s: string, abc: string, x: string, i: nat, j: nat)
    requires PostShape(s, abc, x) && TextsFit(abc, x)
    requires 1 < i < 11 && i <= j <= |s|
    ensures !IsOpener(Title, s[i..j])
  {
    var l := |abc|;
    TitleOpenerChars(s, i, j);
    TitleOpenChars(s, abc, x);
    assert s[i] == s[..11][i] == TitleOpen[i];
    if i == 10 {
      TextChars(s, abc, x);
      AuthorOpenChars(s, abc, x);
      if l < 5 {
        assert s[11 + l] == '"';
      } else if l > 5 {
        assert s[16] == abc[5];
      } else {
        var q :| 0 <= q < l && abc[q] == '/';
        assert s[11 + q] == '/';
      }
    }
  }

  /** No title opener starts in the text after the title. */
  lemma NoTitleAfterTitle(s: string, abc: string, x: string, i: nat, j: nat)
    requires PostShape(s, abc, x) && TextsFit(abc, x)
    requires 11 + |abc| <= i <= j <= |s|
    ensures !IsOpener(Title, s[i..j])
  {
    var l := |abc|;
    TitleOpenerChars(s, i, j);
    AuthorOpenChars(s, abc, x);
    TextChars(s, abc, x);
    BodyCloseChars(s, abc, x);
    if i < 25 + l {
      assert s[i] == s[11 + l..25 + l][i - 11 - l] == AuthorOpen[i - 11 - l];
      if i == 24 + l {
        if |x| < 5 {
          assert s[25 + l + |x|] == '"';
        } else if |x| > 5 {
          assert s[30 + l] == x[5];
        }
      }
    } else if i < 25 + l + |x| {
      assert s[i] == x[i - 25 - l];
    }
  }

  /** No title match starts after index 1, so the one at index 1 is the one captured. */
  lemma NoTitleAfter(s: string, abc: string, x: string)
    requires PostShape(s, abc, x) && TextsFit(abc, x)
    ensures forall i: nat, j: nat, k: nat :: 1 < i ==> !IsMatch(s, Title, i, j, k)
  {
    forall i: nat, j: nat | 1 < i && i <= j <= |s|
      ensures !IsOpener(Title, s[i..j])
    {
      if i < 11 {
        NoTitleInTitleOpen(s, abc, x, i, j);
      } else if i < 11 + |abc| {
        TextChars(s, abc, x);
        TitleOpenerChars(s, i, j);
        assert s[i] == abc[i - 11];
      } else {
        NoTitleAfterTitle(s, abc, x, i, j);
      }
    }
  }

  /** No author match starts after the real author opener. */
  lemma NoAuthorAfter(s: string, abc: string, x: string)
    requires PostShape(s, abc, x) && TextsFit(abc, x)
    ensures forall i: nat, j: nat, k: nat :: 14 + |abc| < i ==> !IsMatch(s, Author, i, j, k)
  {
    var l := |abc|;
    AuthorOpenChars(s, abc, x);
    TextChars(s, abc, x);
    BodyCloseChars(s, abc, x);
    forall i: nat, j: nat | 14 + l < i && i <= j <= |s|
      ensures !IsOpener(Author, s[i..j])
    {
      AuthorOpenerChars(s, i, j);
      if i < 25 + l {
        assert s[i] == s[11 + l..25 + l][i - 11 - l] == AuthorOpen[i - 11 - l];
        if i == 24 + l {
          if |x| < 6 {
            assert s[25 + l + |x|] == '"';
          } else if |x| > 6 {
            assert s[31 + l] == x[6];
          }
        }
      } else if i < 25 + l + |x| {
        assert s[i] == x[i - 25 - l];
      }
    }
  }

  /** Three valid lines joined by `/` make a title text that `Post` can carry. */
  lemma TitleTextFacts(a: string, b: string, c: string, x: string)
    requires IsLineText(a) && IsLineText(b) && IsLineText(c) && IsAuthorText(x)
    ensures TextsFit(Join([a, b, c], '/'), x)
  {
    var abc := Join([a, b, c], '/');
    assert Join([b, c], '/') == b + "/" + c;
    assert abc == a + "/" + b + "/" + c;
    assert abc[|a|] == '/';
    forall t | 0 <= t < |abc| ensures abc[t] != '"' && !IsLineTerminator(abc[t]) {
      if t < |a| {
        assert abc[t] == a[t];
      } else if |a| < t <= |a| + |b| {
        assert abc[t] == b[t - |a| - 1];
      } else if |a| + |b| + 1 < t {
        assert abc[t] == c[t - |a| - |b| - 2];
      }
    }
  }

  /** In a body of that shape the title captured is `abc`. */
  lemma TitleOfShape(s: string, abc: string, x: string)
    requires PostShape(s, abc, x) && TextsFit(abc, x)
    ensures Capture(s, Title) == Some(abc)
  {
    TitleMatchInPost(s, abc, x);
    NoTitleAfter(s, abc, x);
    CaptureOfLastMatch(s, Title, 1, 11, 11 + |abc|);
  }

  /** In a body of that shape the author group captured is `x`. */
  lemma AuthorOfShape(s: string, abc: string, x: string)
    requires PostShape(s, abc, x) && TextsFit(abc, x)
    ensures Capture(s, Author) == Some(x)
  {
    var i, j, k := 14 + |abc|, 25 + |abc|, 25 + |abc| + |x|;
    assert IsMatch(s, Author, i, j, k) by {
      AuthorMatchInPost(s, abc, x);
    }
    assert forall i': nat, j': nat, k': nat :: i < i' ==> !IsMatch(s, Author, i', j', k') by {
      NoAuthorAfter(s, abc, x);
    }
    CaptureOfLastMatch(s, Author, i, j, k);
    assert s[j..k] == x;
  }

  /**
   * Three short lines all fit. A lemma rather than an `assert`, so that the
   * solver proves it apart from the split and trim facts in `LinesOfTitle`.
   */
  lemma ThreeFit(a: string, b: string, c: string)
    requires |a| <= MaxLineLength && |b| <= MaxLineLength && |c| <= MaxLineLength
    ensures AllFit([a, b, c])
  {
  }

  /** The title `a/b/c` splits and trims back into `a`, `b`, `c`, each short enough. */
  lemma LinesOfTitle(a: string, b: string, c: string)
    requires IsLineText(a) && IsLineText(b) && IsLineText(c)
    ensures var lines := TrimAll(JavaSplit(Join([a, b, c], '/'), '/'));
      lines == [a, b, c] && AllFit(lines) && Join(lines, '\n') == a + "\n" + b + "\n" + c
  {
    var abc := [a, b, c];
    JavaSplitJoin(abc, '/');
    assert TrimAll(abc) == abc by {
      TrimOfTrimmed(a);
      TrimOfTrimmed(b);
      TrimOfTrimmed(c);
    }
    ThreeFit(a, b, c);
    assert Join(abc, '\n') == a + "\n" + b + "\n" + c by {
      assert abc[1..] == [b, c] && [b, c][1..] == [c];
      assert Join([b, c], '\n') == b + "\n" + c;
    }
  }

  /**
   * Round trip: the post `{"title": "a/b/c", "author": "x"}` of three valid
   * lines and a valid author yields the haiku `a\nb\nc` and the author `x`.
   */
  lemma ParseRoundTrip(a: string, b: string, c: string, x: string)
    requires IsLineText(a) && IsLineText(b) && IsLineText(c) && IsAuthorText(x)
    ensures Parse(Some(Post(a, b, c, x))) == Some(HaikuAuthorTuple(a + "\n" + b + "\n" + c, x))
  {
    var m := Post(a, b, c, x);
    var abc := Join([a, b, c], '/');
    assert Capture(m, Title) == Some(abc) && AuthorOf(m) == x by {
      PostHasShape(a, b, c, x);
      TitleTextFacts(a, b, c, x);
      TitleOfShape(m, abc, x);
      AuthorOfShape(m, abc, x);
      TrimOfTrimmed(x);
    }
    LinesOfTitle(a, b, c);
    ParseAccepts(m, abc);
  }

  /** A body whose title splits into three lines that fit is accepted, with its author. */
  lemma ParseAccepts(m: string, title: string)
    requires Capture(m, Title) == Some(title)
    requires var lines := TrimAll(JavaSplit(title, '/')); |lines| == 3 && AllFit(lines)
    ensures Parse(Some(m)) == Some(HaikuAuthorTuple(Join(TrimAll(JavaSplit(title, '/')), '\n'), AuthorOf(m)))
  {
  }

  /** No body, no haiku: a failed download or a non-200 answer gives `None`. */
  lemma NoBodyNoHaiku()
    ensures Parse(None) == None
  {
  }

  /** A body without a title match gives no haiku. */
  lemma MissingTitleRejected(m: string)
    requires Capture(m, Title).None?
    ensures Parse(Some(m)) == None
  {
  }

  /** A title of `n` non-empty-ended segments, `n != 3`, gives no haiku (`"a/b"` is refused). */
  lemma SegmentCountRejected(m: string, parts: seq<string>)
    requires Capture(m, Title) == Some(Join(parts, '/'))
    requires |parts| >= 1 && parts[|parts| - 1] != "" && |parts| != 3
    requires forall t :: 0 <= t < |parts| ==> '/' !in parts[t]
    ensures Parse(Some(m)) == None
  {
    JavaSplitJoin(parts, '/');
  }

  /** A trailing `/` is dropped by `split`, so `"a/b/c/"` is parsed like `"a/b/c"`. */
  lemma TrailingSlashAccepted(m: string, a: string, b: string, c: string)
    requires Capture(m, Title) == Some(Join([a, b, c], '/') + "/")
    requires '/' !in a && '/' !in b && '/' !in c && c != ""
    ensures var lines := TrimAll([a, b, c]);
      Parse(Some(m)) == if AllFit(lines) then Some(HaikuAuthorTuple(Join(lines, '\n'), AuthorOf(m))) else None
  {
    JavaSplitJoinTrailing([a, b, c], '/');
  }

  /** One segment longer than `MaxLineLength` once trimmed sinks the whole haiku. */
  lemma LongLineRejected(m: string, parts: seq<string>, t: nat)
    requires Capture(m, Title) == Some(Join(parts, '/'))
    requires |parts| >= 1 && parts[|parts| - 1] != ""
    requires forall u :: 0 <= u < |parts| ==> '/' !in parts[u]
    requires t < |parts| && |Trim(parts[t])| > MaxLineLength
    ensures Parse(Some(m)) == None
  {
    JavaSplitJoin(parts, '/');
    assert TrimAll(parts)[t] == Trim(parts[t]);
  }

  /** What a successful parse consists of. */
  lemma ParseSucceeded(m: string)
    requires Parse(Some(m)).Some?
    ensures Capture(m, Title).Some?
    ensures var lines := TrimAll(JavaSplit(Capture(m, Title).value, '/'));
      && |lines| == 3 && AllFit(lines)
      && Parse(Some(m)).value == HaikuAuthorTuple(Join(lines, '\n'), AuthorOf(m))
  {
  }

  /**
   * A haiku taken from a one-line body has exactly three lines, each trimmed
   * and at most `MaxLineLength` long, and its author fits too.
   */
  lemma ParsedLines(m: string)
    requires Parse(Some(m)).Some? && SingleLine(m)
    ensures var r := Parse(Some(m)).value;
      var lines := SplitAll(r.haiku, '\n');
      && |lines| == 3 && AllFit(lines)
      && (forall t :: 0 <= t < |lines| ==> IsTrimmed(lines[t]))
      && |r.author| <= MaxLineLength
  {
    ParseSucceeded(m);
    var title := Capture(m, Title).value;
    var parts := JavaSplit(title, '/');
    var lines := TrimAll(parts);
    assert forall t :: 0 <= t < |lines| ==> '\n' !in lines[t] by {
      assert '\n' !in m by {
        assert forall t :: 0 <= t < |m| ==> !IsLineTerminator(m[t]);
      }
      CaptureLacks(m, Title, '\n');
      JavaSplitLacks(title, '/', '\n');
      forall t | 0 <= t < |lines|
        ensures '\n' !in lines[t]
      {
        TrimLacks(parts[t], '\n');
      }
    }
    assert forall t :: 0 <= t < |lines| ==> IsTrimmed(lines[t]);
    SplitAllJoin(lines, '\n');
  }
}
