/**
 * The POST handler of the idea-generation API route: it checks the node text, builds
 * the prompt, hands it to the language model, and turns the reply into a list of ideas
 * by keeping the numbered lines and stripping their numbers.
 */
module IdeaRoute {
  import opened Wrappers
  import opened Lists
  import opened JsText
  import IdeaPrompt
  import opened ModelCall

  const Instruction: string := ". Return only the ideas as a numbered list, with each idea being 1-5 words."

  /** The ideas the route answers with when the model offers none or fails. */
  const FallbackIdeas: seq<string> := ["Related concept 1", "Related concept 2", "Related concept 3"]

  /** The user prompt sent to the model. */
  function Prompt(nodeText: string, parentText: Option<string>): (p: string)
    ensures IdeaPrompt.Opening(nodeText) <= p
    ensures |p| >= |Instruction| && p[|p| - |Instruction|..] == Instruction
    ensures IdeaPrompt.Truthy(parentText) <==> |p| > |IdeaPrompt.Opening(nodeText)| + |Instruction|
  {
    IdeaPrompt.Compose(nodeText, parentText, Instruction)
  }

  /**
   * `s[..k]` is a match of the regex `^\d+\.\s+` with `d` digits: at least one digit,
   * a period, and at least one whitespace character.
   */
  ghost predicate NumberingAt(s: string, d: nat, k: nat) {
    && 1 <= d && d + 2 <= k <= |s|
    && All(s[..d], IsDigit)
    && s[d] == '.'
    && All(s[d + 1..k], IsSpace)
  }

  /** The length of the (greedy) match of `^\d+\.\s+` at the start of `s`, if there is one. */
  function NumberPrefix(s: string): (r: Option<nat>)
    ensures r.Some? ==> (exists d :: NumberingAt(s, d, r.value)) && (r.value < |s| ==> !IsSpace(s[r.value]))
  {
    var d := Span(s, IsDigit);
    if d == 0 || d == |s| || s[d] != '.' then None
    else
      var w := Span(s[d + 1..], IsSpace);
      if w == 0 then None
      else
        assert s[d + 1..d + 1 + w] == s[d + 1..][..w];
        assert NumberingAt(s, d, d + 1 + w);
        assert d + 1 + w < |s| ==> s[d + 1 + w] == s[d + 1..][w];
        Some(d + 1 + w)
  }

  /** A run is determined by where it stops. */
  lemma SpanUnique(s: string, p: char -> bool, m: nat)
    requires m <= |s| && All(s[..m], p) && (m < |s| ==> !p(s[m]))
    ensures Span(s, p) == m
  {
    var n := Span(s, p);
    forall i | 0 <= i < m ensures p(s[i]) {
      assert s[..m][i] == s[i];
    }
    forall i | 0 <= i < n ensures p(s[i]) {
      assert s[..n][i] == s[i];
    }
  }

  /** Whenever `s` starts with `^\d+\.\s+`, NumberPrefix finds it. */
  lemma NumberPrefixComplete(s: string, d: nat, k: nat)
    requires NumberingAt(s, d, k)
    ensures NumberPrefix(s).Some?
  {
    assert !IsDigit(s[d]);
    SpanUnique(s, IsDigit, d);
    assert s[d + 1..][0] == s[d + 1..k][0];
  }

  /** A run that stops inside `s` stops at the same place in any extension of `s`. */
  lemma SpanOfExtension(s: string, u: string, p: char -> bool)
    requires s <= u && Span(s, p) < |s|
    ensures Span(u, p) == Span(s, p)
  {
    var n := Span(s, p);
    assert u[..n] == s[..n];
    SpanUnique(u, p, n);
  }

  /** A number prefix followed by more text in `t` is found unchanged in any extension of `t`. */
  lemma NumberPrefixOfExtension(t: string, u: string)
    requires t <= u && NumberPrefix(t).Some? && NumberPrefix(t).value < |t|
    ensures NumberPrefix(u) == NumberPrefix(t)
  {
    var d := Span(t, IsDigit);
    var w := Span(t[d + 1..], IsSpace);
    assert NumberPrefix(t) == Some(d + 1 + w);
    SpanOfExtension(t, u, IsDigit);
    assert u[d] == t[d];
    assert t[d + 1..] <= u[d + 1..];
    SpanOfExtension(t[d + 1..], u[d + 1..], IsSpace);
  }

  /** The filter at line 50: the trimmed line starts with a number, a period and whitespace. */
  predicate IsNumberedLine(line: string): (b: bool)
    ensures b <==> exists d, k :: NumberingAt(Trim(line), d, k)
  {
    var t := Trim(line);
    assert (exists d, k :: NumberingAt(t, d, k)) ==> NumberPrefix(t).Some? by {
      if exists d, k :: NumberingAt(t, d, k) {
        var d, k :| NumberingAt(t, d, k);
        NumberPrefixComplete(t, d, k);
      }
    }
    NumberPrefix(t).Some?
  }

  /** The map at line 51: the number prefix is removed from the untrimmed line, then it is trimmed. */
  function StripNumbering(line: string): (idea: string)
    ensures IsTrimmed(idea)
  {
    Trim(match NumberPrefix(line) case Some(k) => line[k..] case None => line)
  }

  /** In a trimmed string, a number prefix is followed by a non-space character. */
  lemma NumberPrefixOfTrimmed(t: string)
    requires IsTrimmed(t) && NumberPrefix(t).Some?
    ensures NumberPrefix(t).value < |t| && !IsSpace(t[NumberPrefix(t).value])
  {
    var k := NumberPrefix(t).value;
    var d :| NumberingAt(t, d, k);
    assert IsSpace(t[k - 1]) by {
      assert t[d + 1..k][k - d - 2] == t[k - 1];
    }
  }

  /** Trimming a line that does not start with whitespace only cuts its end. */
  lemma TrimOfUnindented(line: string)
    requires line != [] && !IsSpace(line[0])
    ensures Trim(line) <= line
  {
    var t := Trim(line);
    var i :| 0 <= i <= |line| - |t| && line[i..i + |t|] == t && AllSpace(line[..i]) && AllSpace(line[i + |t|..]);
    if i > 0 {
      assert line[..i][0] == line[0];
    }
  }

  /** A kept line never strips down to nothing, so the final non-empty filter removes nothing. */
  lemma StripNumberingNonEmpty(line: string)
    requires IsNumberedLine(line)
    ensures StripNumbering(line) != ""
  {
    var t := Trim(line);
    NumberPrefixOfTrimmed(t);
    var k := NumberPrefix(t).value;
    if line != [] && !IsSpace(line[0]) {
      TrimOfUnindented(line);
      NumberPrefixOfExtension(t, line);
      assert line[k..][0] == t[k];
      TrimKeepsFirst(line[k..]);
    } else {
      assert NumberPrefix(line).None? by {
        if line != [] { assert Span(line, IsDigit) == 0; }
      }
    }
  }

  /** Lines 48-52: split the reply into lines, keep the numbered ones, strip their numbers. */
  function ParseIdeas(content: string): (ideas: seq<string>)
    ensures forall i :: 0 <= i < |ideas| ==> ideas[i] != "" && IsTrimmed(ideas[i])
  {
    var stripped := Map(Filter(Split(content, '\n'), IsNumberedLine), StripNumbering);
    FilterKeepsProperty(stripped, NonEmpty, IsTrimmed);
    Filter(stripped, NonEmpty)
  }

  /** The parse works line by line and keeps the order of the lines. */
  lemma ParseLineByLine(a: string, b: string)
    ensures ParseIdeas(a + "\n" + b) == ParseIdeas(a) + ParseIdeas(b)
  {
    SplitConcat(a, b, '\n');
    var la, lb := Split(a, '\n'), Split(b, '\n');
    FilterConcat(la, lb, IsNumberedLine);
    var ka, kb := Filter(la, IsNumberedLine), Filter(lb, IsNumberedLine);
    MapConcat(ka, kb, StripNumbering);
    FilterConcat(Map(ka, StripNumbering), Map(kb, StripNumbering), NonEmpty);
  }

  /** One line yields its stripped idea exactly when it is a numbered line, and nothing otherwise. */
  lemma ParseOneLine(line: string)
    requires '\n' !in line
    ensures ParseIdeas(line) == if IsNumberedLine(line) then [StripNumbering(line)] else []
  {
    SplitNoSeparator(line, '\n');
    if IsNumberedLine(line) {
      StripNumberingNonEmpty(line);
    }
  }

  /** An indented numbered line is kept, but its number is not stripped. */
  lemma IndentedLineKeepsNumber(line: string)
    requires '\n' !in line && line != [] && IsSpace(line[0]) && IsNumberedLine(line)
    ensures ParseIdeas(line) == [Trim(line)]
    ensures NumberPrefix(ParseIdeas(line)[0]).Some?
  {
    ParseOneLine(line);
    assert Span(line, IsDigit) == 0;
  }

  /** The body of the request, once `request.json()` has parsed it. */
  datatype RequestBody = Unparseable | Body(nodeText: Option<string>, parentText: Option<string>)

  /** The JSON response: its status, its `ideas` field (empty when absent) and its `error` field. */
  datatype Reply = Reply(status: int, ideas: seq<string>, error: Option<string>)

  /** The prompt handed to the model (None when no call is made) and the response. */
  datatype Exchange = Exchange(prompt: Option<string>, reply: Reply)

  /** The route's POST handler, with the model call's outcome given as `completion`. */
  function Post(body: RequestBody, completion: Completion): (r: Exchange)
    ensures r.prompt.Some? <==> body.Body? && IdeaPrompt.Truthy(body.nodeText)
    ensures r.prompt.Some? ==> r.prompt.value == Prompt(body.nodeText.value, body.parentText)
    ensures r.reply.status == 400 <==> body.Body? && !IdeaPrompt.Truthy(body.nodeText)
    ensures r.reply.status == 400 ==> r.reply == Reply(400, [], Some("Node text is required"))
    ensures r.reply.status == 500 <==> body.Unparseable? || (r.prompt.Some? && completion.Threw?)
    ensures r.reply.status == 500 ==> r.reply == Reply(500, FallbackIdeas, Some("Failed to generate ideas"))
    ensures r.reply.status == 200 || r.reply.status == 400 || r.reply.status == 500
    ensures r.reply.status == 200 ==> completion.Returned? && r.reply.error == None
    ensures r.reply.status == 200 ==>
      var parsed := ParseIdeas(ContentText(completion.content));
      r.reply.ideas == if parsed == [] then FallbackIdeas else parsed
  {
    match body
    case Unparseable =>
      Exchange(None, Reply(500, FallbackIdeas, Some("Failed to generate ideas")))
    case Body(nodeText, parentText) =>
      if !IdeaPrompt.Truthy(nodeText) then
        Exchange(None, Reply(400, [], Some("Node text is required")))
      else
        var prompt := Prompt(nodeText.value, parentText);
        match completion
        case Threw =>
          Exchange(Some(prompt), Reply(500, FallbackIdeas, Some("Failed to generate ideas")))
        case Returned(content) =>
          var ideas := ParseIdeas(ContentText(content));
          if ideas == [] then Exchange(Some(prompt), Reply(200, FallbackIdeas, None))
          else Exchange(Some(prompt), Reply(200, ideas, None))
  }

  /** Apart from the 400 answer, every response carries at least one idea, each trimmed and non-empty. */
  lemma PostAlwaysOffersIdeas(body: RequestBody, completion: Completion)
    requires Post(body, completion).reply.status != 400
    ensures var ideas := Post(body, completion).reply.ideas;
      |ideas| > 0 && forall i :: 0 <= i < |ideas| ==> ideas[i] != "" && IsTrimmed(ideas[i])
  {
    var ideas := Post(body, completion).reply.ideas;
    if ideas == FallbackIdeas {
      assert IsTrimmed(FallbackIdeas[0]) && IsTrimmed(FallbackIdeas[1]) && IsTrimmed(FallbackIdeas[2]);
    }
  }
}
