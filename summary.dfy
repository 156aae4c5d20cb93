/** `extract_content`: the text that stands for one bill's detail page. The
    page fetch and the HTML parse are outside the model; what reaches the
    function is their outcome. */
module Summary {
  import opened PyBuiltins

  /** What fetching and parsing one detail page produced: a response with its
      HTTP status and, when the page has a `div.body_content`, that region's
      text as the parser extracts it; or an exception, by its message. */
  datatype FetchOutcome =
    | Response(status: int, bodyContent: Option<string>)
    | Raised(message: string)

  /** How many words a summary keeps. */
  const WordLimit: nat := 50

  const Ellipsis := "..."
  const ContentNotFound := "Content not found."
  const StatusPrefix := "Failed to retrieve page. Status code: "
  const ErrorPrefix := "Error fetching content: "

  /** The first 50 words of `text`, joined by single spaces, followed by "..."
      whether or not anything was cut off. The text before the ellipsis is
      pinned down completely: its words are the first words of `text`, and it
      is those words with one space between each pair and nothing else. */
  function WordLimitSummary(text: string): (r: string)
    ensures |r| >= |Ellipsis| && r[|r| - |Ellipsis|..] == Ellipsis
    ensures Split(r[..|r| - |Ellipsis|]) == Take(Split(text), WordLimit)
    ensures r[..|r| - |Ellipsis|] == Join(Split(r[..|r| - |Ellipsis|]))
  {
    var words := Take(Split(text), WordLimit);
    SplitJoin(words);
    var r := Join(words) + Ellipsis;
    assert r[..|r| - |Ellipsis|] == Join(words);
    r
  }

  /** `extract_content(url)` once the network and the parser have answered.
      It has no precondition and no failure result: every outcome, including
      an exception, becomes a string. */
  function ExtractContent(outcome: FetchOutcome): string
  {
    match outcome
    case Raised(message) => ErrorPrefix + message
    case Response(status, bodyContent) =>
      if status != 200 then StatusPrefix + IntText(status)
      else if bodyContent.None? then ContentNotFound
      else WordLimitSummary(bodyContent.value)
  }

  /** An exception becomes a diagnostic that carries its message unchanged
      after a fixed prefix. */
  lemma ExceptionIsReported(message: string)
    ensures var r := ExtractContent(Raised(message));
      && |r| >= |ErrorPrefix| && r[..|ErrorPrefix|] == ErrorPrefix
      && r[|ErrorPrefix|..] == message
  {
    var r := ExtractContent(Raised(message));
    assert r == ErrorPrefix + message;
  }

  /** A status other than 200 becomes the fixed prefix followed by `str` of the
      status code: canonical decimal text, which reads back as the code. */
  lemma StatusIsReported(status: int, bodyContent: Option<string>)
    requires status != 200
    ensures var r := ExtractContent(Response(status, bodyContent));
      && |r| > |StatusPrefix| && r[..|StatusPrefix|] == StatusPrefix
      && r[|StatusPrefix|..] == IntText(status)
      && IsIntText(r[|StatusPrefix|..])
      && ParseInt(r[|StatusPrefix|..]) == status
  {
    var r := ExtractContent(Response(status, bodyContent));
    assert r[|StatusPrefix|..] == IntText(status);
    IntTextRoundTrip(status);
  }

  /** A 200 page without a `body_content` region gives the fixed text. */
  lemma MissingRegionIsReported(outcome: FetchOutcome)
    requires outcome == Response(200, None)
    ensures ExtractContent(outcome) == ContentNotFound
  {
  }

  /** A 200 page with a region gives its first min(50, #words) words, single
      spaced, then "...". Every kept word is a real word: non-empty and free
      of whitespace. */
  lemma RegionIsSummarized(text: string)
    ensures var r := ExtractContent(Response(200, Some(text)));
      var body := r[..|r| - |Ellipsis|];
      && |r| >= |Ellipsis| && r[|r| - |Ellipsis|..] == Ellipsis
      && |Split(body)| == (if |Split(text)| < WordLimit then |Split(text)| else WordLimit)
      && (forall i :: 0 <= i < |Split(body)| ==> Split(body)[i] == Split(text)[i] && IsWord(Split(body)[i]))
      && body == Join(Split(body))
  {
    var r := ExtractContent(Response(200, Some(text)));
    assert r == WordLimitSummary(text);
  }

  /** With at most 50 words nothing is dropped, yet the "..." is still there. */
  lemma ShortRegionKeepsEveryWord(text: string)
    requires |Split(text)| <= WordLimit
    ensures var r := ExtractContent(Response(200, Some(text)));
      && r[|r| - |Ellipsis|..] == Ellipsis
      && Split(r[..|r| - |Ellipsis|]) == Split(text)
  {
    var r := ExtractContent(Response(200, Some(text)));
    assert r == WordLimitSummary(text);
  }

  /** The words that survive carry every non-whitespace character of the
      region's first 50 words, in order. */
  lemma SummaryKeepsText(text: string)
    requires |Split(text)| <= WordLimit
    ensures var r := ExtractContent(Response(200, Some(text)));
      Concat(Split(r[..|r| - |Ellipsis|])) == NonSpace(text)
  {
    ShortRegionKeepsEveryWord(text);
    SplitKeepsText(text);
  }

  /** A 503 for the detail page reads "Failed to retrieve page. Status code: 503". */
  lemma ServiceUnavailableExample()
    ensures ExtractContent(Response(503, None)) == "Failed to retrieve page. Status code: 503"
  {
    assert NatText(503) == NatText(50) + ['3'];
    assert NatText(50) == NatText(5) + ['0'];
  }

  lemma SplitThreeWords(a: string, g1: string, b: string, g2: string, c: string)
    requires IsWord(a) && IsWord(b) && IsWord(c)
    requires |g1| > 0 && AllSpace(g1) && |g2| > 0 && AllSpace(g2)
    ensures Split(a + (g1 + (b + (g2 + c)))) == [a, b, c]
  {
    var r3 := g2 + c;
    var r2 := b + r3;
    var r1 := g1 + r2;
    SplitWord(a, r1);
    SplitSkipsSpace(g1, r2);
    SplitWord(b, r3);
    SplitSkipsSpace(g2, c);
    SplitWord(c, "");
    assert c + "" == c;
    assert Split("") == [];
    calc {
      Split(a + r1);
      [a] + Split(r1);
      [a] + Split(r2);
      [a] + ([b] + Split(r3));
      [a] + ([b] + Split(c));
      [a] + ([b] + [c]);
    }
  }

  /** A region of three words, whatever whitespace separates them, gives the
      three words single spaced, and still the "...". */
  lemma ThreeWordRegion(a: string, g1: string, b: string, g2: string, c: string)
    requires IsWord(a) && IsWord(b) && IsWord(c)
    requires |g1| > 0 && AllSpace(g1) && |g2| > 0 && AllSpace(g2)
    ensures ExtractContent(Response(200, Some(a + (g1 + (b + (g2 + c)))))) == a + " " + (b + " " + c) + Ellipsis
  {
    SplitThreeWords(a, g1, b, g2, c);
    var words := [a, b, c];
    assert Take(words, WordLimit) == words;
    assert words[1..] == [b, c] && words[1..][1..] == [c];
    assert Join(words[1..]) == b + " " + c;
  }
}
