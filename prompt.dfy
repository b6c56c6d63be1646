/**
 * The user prompt both idea generators send to the language model: a fixed lead that
 * quotes the node's label, a clause quoting the parent's label when there is one, and
 * a closing instruction that differs between the two generators.
 */
module IdeaPrompt {
  import opened Wrappers

  const Lead: string := "Generate 3-5 concise, distinct child concepts or actionable ideas for a mind map node titled \""

  /** JavaScript truthiness of an optional string: present and not empty. */
  predicate Truthy(s: Option<string>) {
    s.Some? && s.value != ""
  }

  /** The part of the prompt that names the node. */
  function Opening(nodeText: string): string {
    Lead + nodeText + "\""
  }

  /** The parent clause, ` which is under the parent node "<parent>"`. */
  function ParentClause(parentText: string): (c: string)
    ensures |c| > 0
  {
    " which is under the parent node \"" + parentText + "\""
  }

  /**
   * The prompt: the opening, the parent clause exactly when the parent's label is
   * truthy, and `tail` at the end.
   */
  function Compose(nodeText: string, parentText: Option<string>, tail: string): (p: string)
    ensures Opening(nodeText) <= p
    ensures |p| >= |tail| && p[|p| - |tail|..] == tail
    ensures Truthy(parentText) <==> |p| > |Opening(nodeText)| + |tail|
    ensures Truthy(parentText) ==> ParentClause(parentText.value) <= p[|Opening(nodeText)|..]
  {
    var middle := if Truthy(parentText) then ParentClause(parentText.value) else "";
    ThreeParts(Opening(nodeText), middle, tail);
    Opening(nodeText) + middle + tail
  }

  /** Where the three parts of a concatenation sit in it. */
  lemma ThreeParts(head: string, middle: string, tail: string)
    ensures head <= head + middle + tail
    ensures (head + middle + tail)[|head| + |middle|..] == tail
    ensures (head + middle + tail)[|head|..] == middle + tail
  {
    var p := head + middle + tail;
    assert p[|head| + |middle|..] == tail;
    assert p[|head|..] == middle + tail;
  }
}

/** The outcome of a chat-completion call, which the model leaves to its caller. */
module ModelCall {
  import opened Wrappers

  /** What the model call did: threw, or returned a message whose content may be missing. */
  datatype Completion = Threw | Returned(content: Option<string>)

  /** `response.choices[0]?.message?.content || ""`. */
  function ContentText(content: Option<string>): string {
    if content.Some? then content.value else ""
  }
}
