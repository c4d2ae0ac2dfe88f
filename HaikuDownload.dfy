/**
 * The background download of one r/haiku post: build the permalink's JSON URL,
 * GET it, mark the permalink visited as soon as the server answers 200, then
 * pull the haiku (three `/`-separated lines of the title) and the author out of
 * the body and validate them.
 */
module HaikuDownload {
  import opened Wrappers
  import opened JavaString
  import opened FieldCapture
  import opened HaikuDb

  const HaikuUrlPrefix: string := "http://reddit.com/r/haiku/"
  const JsonSuffix: string := ".json"
  const HttpOk: int := 200
  /** Longest haiku line, and longest author name, that is shown. */
  const MaxLineLength: nat := 45
  /** The author shown when none can be extracted. */
  const NoAuthor: string := "n/a"

  /** `HaikuAuthorTuple`: the three lines joined by newlines, and the author. */
  datatype HaikuAuthorTuple = HaikuAuthorTuple(haiku: string, author: string)

  /**
   * What the GET of a URL gives back: no response at all (an `IOException` while
   * connecting), or a status code and, for a 200, the body text. The body is
   * `None` when opening the response stream (`getInputStream`) failed. A failure
   * later, while the `Scanner` reads or when the stream is closed, still leaves
   * the text read so far (possibly `""`), which is then parsed: that case is
   * `Some` of the partial text.
   */
  datatype HttpOutcome = ConnectionFailed | Responded(code: int, body: Option<string>)

  /** `getPermalinkUrl`. */
  function PermalinkUrl(permalink: string): (url: string)
    ensures |url| == |HaikuUrlPrefix| + |permalink| + |JsonSuffix|
    ensures url[..|HaikuUrlPrefix|] == HaikuUrlPrefix
    ensures url[|url| - |JsonSuffix|..] == JsonSuffix
    ensures url[|HaikuUrlPrefix|..|url| - |JsonSuffix|] == permalink
  {
    HaikuUrlPrefix + permalink + JsonSuffix
  }

  /** The permalink a haiku URL was built from, if it has the prefix and suffix. */
  function PermalinkOfUrl(url: string): Option<string>
  {
    if |url| >= |HaikuUrlPrefix| + |JsonSuffix|
       && url[..|HaikuUrlPrefix|] == HaikuUrlPrefix
       && url[|url| - |JsonSuffix|..] == JsonSuffix
    then Some(url[|HaikuUrlPrefix|..|url| - |JsonSuffix|])
    else None
  }

  /** The permalink can be read back from its URL, so distinct permalinks get distinct URLs. */
  lemma PermalinkUrlRoundTrip(permalink: string)
    ensures PermalinkOfUrl(PermalinkUrl(permalink)) == Some(permalink)
  {
  }

  /** The body handed to the parser: only a 200 whose body could be read has one. */
  function Message(outcome: HttpOutcome): (message: Option<string>)
    ensures message.Some? <==> outcome.Responded? && outcome.code == HttpOk && outcome.body.Some?
    ensures message.Some? ==> message == outcome.body
  {
    if outcome.Responded? && outcome.code == HttpOk then outcome.body else None
  }

  /** Each line trimmed. */
  function TrimAll(lines: seq<string>): (r: seq<string>)
    ensures |r| == |lines|
    ensures forall t :: 0 <= t < |r| ==> r[t] == Trim(lines[t])
  {
    seq(|lines|, t requires 0 <= t < |lines| => Trim(lines[t]))
  }

  /** Every line is short enough to show. */
  predicate AllFit(lines: seq<string>) {
    forall t :: 0 <= t < |lines| ==> |lines[t]| <= MaxLineLength
  }

  /** The author: the trimmed `author` group, or `NoAuthor` when it is missing or too long. */
  function AuthorOf(message: string): (author: string)
    ensures |author| <= MaxLineLength
    ensures Capture(message, Author).None? ==> author == NoAuthor
    ensures Capture(message, Author).Some? && |Trim(Capture(message, Author).value)| <= MaxLineLength
            ==> author == Trim(Capture(message, Author).value)
    ensures Capture(message, Author).Some? && |Trim(Capture(message, Author).value)| > MaxLineLength
            ==> author == NoAuthor
  {
    match Capture(message, Author)
    case None => NoAuthor
    case Some(g) =>
      var a := Trim(g);
      if |a| > MaxLineLength then NoAuthor else a
  }

  /**
   * What the background task returns for a body (`None` for no body): the
   * title must match and split into exactly three lines, each at most
   * `MaxLineLength` chars once trimmed; the author is best effort.
   */
  function Parse(message: Option<string>): (r: Option<HaikuAuthorTuple>)
    ensures message.None? ==> r.None?
    ensures r.Some? ==> message.Some? && Capture(message.value, Title).Some?
    ensures r.Some? ==> |r.value.author| <= MaxLineLength
  {
    match message
    case None => None
    case Some(m) =>
      match Capture(m, Title)
      case None => None
      case Some(title) =>
        var lines := TrimAll(JavaSplit(title, '/'));
        if |lines| == 3 && AllFit(lines) then Some(HaikuAuthorTuple(Join(lines, '\n'), AuthorOf(m)))
        else None
  }

  /**
   * The `StringBuilder` loop: trim each line, give up on a line that is too long,
   * otherwise append it and a newline; finally drop the last newline.
   */
  method BuildHaiku(haikuLines: seq<string>) returns (haiku: Option<string>)
    requires |haikuLines| > 0
    ensures haiku.Some? <==> AllFit(TrimAll(haikuLines))
    ensures haiku.Some? ==> haiku.value == Join(TrimAll(haikuLines), '\n')
  {
    ghost var trimmed := TrimAll(haikuLines);
    var sb: string := "";
    var i := 0;
    while i < |haikuLines|
      invariant 0 <= i <= |haikuLines|
      invariant AllFit(trimmed[..i])
      invariant sb == Terminated(trimmed[..i])
    {
      var x := Trim(haikuLines[i]);
      assert x == trimmed[i];
      if |x| > MaxLineLength {
        return None;
      }
      TerminatedSnoc(trimmed[..i], x);
      TakeOneMore(trimmed, i);
      sb := sb + x + "\n";
      i := i + 1;
    }
    assert trimmed[..i] == trimmed;
    assert sb == Join(trimmed, '\n') + "\n";
    haiku := Some(sb[..|sb| - 1]);
  }

  /**
   * One more element of a prefix. A lemma rather than an `assert` in the loop,
   * so that the solver proves it apart from the loop's other facts.
   */
  lemma TakeOneMore<T>(s: seq<T>, i: nat)
    requires i < |s|
    ensures s[..i + 1] == s[..i] + [s[i]]
  {
  }

  /** What the `StringBuilder` holds after some lines: each one followed by a newline. */
  ghost function Terminated(lines: seq<string>): string
  {
    if lines == [] then "" else Join(lines, '\n') + "\n"
  }

  /** Appending a line and a newline extends the terminated text by that line. */
  lemma TerminatedSnoc(lines: seq<string>, x: string)
    ensures Terminated(lines) + x + "\n" == Terminated(lines + [x])
  {
    if lines == [] {
      assert [] + [x] == [x];
    } else {
      JoinSnoc(lines, x, '\n');
    }
  }

  /** The parsing half of `doInBackground`, step by step as the source does it. */
  method ExtractHaiku(message: Option<string>) returns (result: Option<HaikuAuthorTuple>)
    ensures result == Parse(message)
  {
    if message.None? {
      return None;
    }
    var body := message.value;
    var title := Capture(body, Title);
    if title.None? {
      return None;
    }
    var haikuLines := JavaSplit(title.value, '/');
    if |haikuLines| != 3 {
      return None;
    }
    var haiku := BuildHaiku(haikuLines);
    if haiku.None? {
      return None;
    }
    result := Some(HaikuAuthorTuple(haiku.value, AuthorOf(body)));
  }

  /**
   * `doInBackground` for one permalink against `server`: the permalink is marked
   * visited exactly when the answer is a 200, before the body is read or parsed.
   */
  method DownloadHaiku(db: HaikuDbAdapter, permalink: string, server: string -> HttpOutcome)
    returns (result: Option<HaikuAuthorTuple>)
    modifies db
    ensures var outcome := server(PermalinkUrl(permalink));
            db.rows == if outcome.Responded? && outcome.code == HttpOk
                       then MarkVisited(old(db.rows), permalink) else old(db.rows)
    ensures result == Parse(Message(server(PermalinkUrl(permalink))))
  {
    var outcome := server(PermalinkUrl(permalink));
    var message: Option<string> := None;
    if outcome.Responded? && outcome.code == HttpOk {
      db.MarkPermalinkAsVisited(permalink);
      message := outcome.body;
    }
    result := ExtractHaiku(message);
  }
}
