/**
 * `generateRelatedIdeas`: builds the prompt, and turns the model's reply into ideas by
 * keeping the trimmed lines of one to seven words, with a fixed list of three for each
 * way the reply can fail.
 */
module RelatedIdeas {
  import opened Wrappers
  import opened Lists
  import opened JsText
  import IdeaPrompt
  import opened ModelCall

  const Instruction: string := ". Each idea should be on a new line. Do not use any numbering or bullet points. Each idea should be 1-5 words."

  /** Returned when the reply is blank. */
  const BlankFallback: seq<string> := ["Idea A (fallback)", "Idea B (fallback)", "Idea C (fallback)"]
  /** Returned when no line of a non-blank reply qualifies. */
  const UnparsedFallback: seq<string> := ["Check logs: Idea 1", "Check logs: Idea 2", "Check logs: Idea 3"]
  /** Returned when the model call throws. */
  const ErrorFallback: seq<string> := ["Error: Concept X", "Error: Concept Y", "Error: Concept Z"]

  /** The user prompt sent to the model. */
  function Prompt(nodeText: string, parentText: Option<string>): (p: string)
    ensures IdeaPrompt.Opening(nodeText) <= p
    ensures |p| >= |Instruction| && p[|p| - |Instruction|..] == Instruction
    ensures IdeaPrompt.Truthy(parentText) <==> |p| > |IdeaPrompt.Opening(nodeText)| + |Instruction|
  {
    IdeaPrompt.Compose(nodeText, parentText, Instruction)
  }

  /** The filter at lines 92-97, applied to an already trimmed line. */
  predicate IsIdeaLine(line: string): (b: bool)
    ensures IsTrimmed(line) ==> (b <==> |line| > 0 && WordCount(line) <= 7 && !EndsWith(line, ':'))
  {
    var words := WordCount(line);
    |line| > 0 && words > 0 && words <= 7 && !EndsWith(line, ':')
  }

  /** Lines 89-97: split on line feeds, trim every line, keep the qualifying ones. */
  function ParseLines(content: string): (ideas: seq<string>)
    ensures forall i :: 0 <= i < |ideas| ==>
      && ideas[i] != "" && IsTrimmed(ideas[i])
      && 1 <= WordCount(ideas[i]) <= 7 && !EndsWith(ideas[i], ':')
  {
    var trimmed := Map(Split(content, '\n'), Trim);
    assert forall i :: 0 <= i < |trimmed| ==> IsTrimmed(trimmed[i]);
    Filter(trimmed, IsIdeaLine)
  }

  /** The parse works line by line and keeps the order of the lines. */
  lemma ParseLineByLine(a: string, b: string)
    ensures ParseLines(a + "\n" + b) == ParseLines(a) + ParseLines(b)
  {
    SplitConcat(a, b, '\n');
    var la, lb := Split(a, '\n'), Split(b, '\n');
    MapConcat(la, lb, Trim);
    FilterConcat(Map(la, Trim), Map(lb, Trim), IsIdeaLine);
  }

  /** One line yields its trimmed form exactly when that qualifies, and nothing otherwise. */
  lemma ParseOneLine(line: string)
    requires '\n' !in line
    ensures ParseLines(line) == if IsIdeaLine(Trim(line)) then [Trim(line)] else []
  {
    SplitNoSeparator(line, '\n');
  }

  /** Every line of a blank reply is blank. */
  lemma {:induction false} SplitBlank(s: string, sep: char)
    requires AllSpace(s)
    ensures forall i :: 0 <= i < |Split(s, sep)| ==> AllSpace(Split(s, sep)[i])
  {
    if s != [] {
      SplitBlank(s[1..], sep);
      var rest := Split(s[1..], sep);
      if s[0] != sep {
        assert AllSpace([s[0]] + rest[0]);
      }
    }
  }

  /** A blank reply parses to nothing: the blank check only decides which fallback is used. */
  lemma BlankParsesToNothing(content: string)
    requires AllSpace(content)
    ensures ParseLines(content) == []
  {
    SplitBlank(content, '\n');
    var trimmed := Map(Split(content, '\n'), Trim);
    assert forall i :: 0 <= i < |trimmed| ==> trimmed[i] == "";
    assert !IsIdeaLine("");
    FilterNone(trimmed, IsIdeaLine);
  }

  /** What one `generateRelatedIdeas` call sends to the model and what it returns. */
  datatype Generated = Generated(prompt: string, ideas: seq<string>)

  /**
   * `generateRelatedIdeas(nodeText, parentText)`, with the outcome of the model call it
   * makes given as `completion`.
   */
  function GenerateRelatedIdeas(nodeText: string, parentText: Option<string>, completion: Completion): (r: Generated)
    ensures r.prompt == Prompt(nodeText, parentText)
    ensures |r.ideas| >= 1
    ensures completion.Threw? ==> r.ideas == ErrorFallback
    ensures completion.Returned? && Trim(ContentText(completion.content)) == "" ==> r.ideas == BlankFallback
    ensures completion.Returned? && Trim(ContentText(completion.content)) != "" ==>
      var parsed := ParseLines(ContentText(completion.content));
      r.ideas == if parsed == [] then UnparsedFallback else parsed
  {
    var prompt := Prompt(nodeText, parentText);
    match completion
    case Threw => Generated(prompt, ErrorFallback)
    case Returned(content) =>
      var raw := ContentText(content);
      if Trim(raw) == "" then Generated(prompt, BlankFallback)
      else
        var ideas := ParseLines(raw);
        Generated(prompt, if |ideas| > 0 then ideas else UnparsedFallback)
  }
}
