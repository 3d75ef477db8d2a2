/** The label of one block of a failure message ("checked value",
    "expected value", "given value"): an adjective for the block's title, an
    adjective for sentences, and the name of the entity. */
module GenericLabelBlock {
  import opened Outcomes
  import opened CompositeFormat

  /** The default message, `The {0} {1}:`, written through `Hole` so that
      formatting it is proved piece by piece. */
  const Template: string := "The " + Hole(0) + " " + Hole(1) + ":"

  lemma TemplateText()
    ensures Template == "The {0} {1}:"
  {
    HoleText();
  }

  /** `entityName` is what the block's naming logic currently answers. */
  datatype LabelBlock = LabelBlock(adjective: string, adjectiveForMessages: string, entityName: string)

  /** The block for the value under check. */
  function BuildCheckedBlock(entityName: string): (b: LabelBlock)
    ensures b.adjective == b.adjectiveForMessages == "checked" && b.entityName == entityName
  {
    LabelBlock("checked", "checked", entityName)
  }

  /** The block for the value the check expects. */
  function BuildExpectedBlock(entityName: string): (b: LabelBlock)
    ensures b.adjective == b.adjectiveForMessages == "expected" && b.entityName == entityName
  {
    LabelBlock("expected", "expected", entityName)
  }

  /** The block for a value passed to the check: titled as expected, called
      given in sentences. */
  function BuildGivenBlock(entityName: string): (b: LabelBlock)
    ensures b.adjective == "expected" && b.adjectiveForMessages == "given" && b.entityName == entityName
  {
    LabelBlock("expected", "given", entityName)
  }

  /** The block's title: the adjective, one space, the entity name. */
  function ToString(b: LabelBlock): (r: string)
    ensures |r| == |b.adjective| + 1 + |b.entityName|
    ensures r[..|b.adjective|] == b.adjective && r[|b.adjective|] == ' '
    ensures r[|b.adjective| + 1..] == b.entityName
  {
    b.adjective + " " + b.entityName
  }

  /** `message` (or the template when it is null) formatted with the
      sentence adjective as `{0}` and the entity name as `{1}`; `None` is the
      FormatException a malformed message raises. */
  function CustomMessage(b: LabelBlock, message: Option<string>): (r: Option<string>)
    ensures message.None? ==> r == Some("The " + b.adjectiveForMessages + " " + b.entityName + ":")
    ensures message.Some? ==> r == Format(message.value, [b.adjectiveForMessages, b.entityName])
  {
    TemplateFills(b.adjectiveForMessages, b.entityName);
    Format(if message.Some? then message.value else Template, [b.adjectiveForMessages, b.entityName])
  }

  lemma TemplateFills(first: string, second: string)
    ensures Format(Template, [first, second]) == Some("The " + first + " " + second + ":")
  {
    var args := [first, second];
    var p4 := ":";
    var p3 := Hole(1) + p4;
    var p2 := " " + p3;
    var p1 := Hole(0) + p2;
    assert "The " + p1 == Template;
    LiteralPrefix(p4, "", args);
    assert p4 + "" == p4;
    Placeholder(1, p4, args);
    assert Format(p3, args) == Some(second + ":");
    LiteralPrefix(" ", p3, args);
    assert " " + (second + ":") == " " + second + ":";
    Placeholder(0, p2, args);
    assert first + (" " + second + ":") == first + " " + second + ":";
    LiteralPrefix("The ", p1, args);
    assert "The " + (first + " " + second + ":") == "The " + first + " " + second + ":";
  }

  /** A message whose braces were doubled comes out as written: the entity
      and adjective are not substituted into it. */
  lemma DoubledMessageIsLiteral(b: LabelBlock, text: string)
    ensures CustomMessage(b, Some(DoubleBraces(text))) == Some(text)
  {
    FormatUndoesDoubleBraces(text, [b.adjectiveForMessages, b.entityName]);
  }

  /** The checked and expected blocks use one word in the title and in
      sentences; the given block is titled "expected" but says "given". */
  lemma BlockWords(entityName: string)
    ensures ToString(BuildCheckedBlock(entityName)) == "checked " + entityName
    ensures CustomMessage(BuildCheckedBlock(entityName), None) == Some("The checked " + entityName + ":")
    ensures ToString(BuildExpectedBlock(entityName)) == "expected " + entityName
    ensures CustomMessage(BuildExpectedBlock(entityName), None) == Some("The expected " + entityName + ":")
    ensures ToString(BuildGivenBlock(entityName)) == "expected " + entityName
    ensures CustomMessage(BuildGivenBlock(entityName), None) == Some("The given " + entityName + ":")
  {
    assert "The " + "checked" + " " + entityName + ":" == "The checked " + entityName + ":";
    assert "The " + "expected" + " " + entityName + ":" == "The expected " + entityName + ":";
    assert "The " + "given" + " " + entityName + ":" == "The given " + entityName + ":";
  }
}
