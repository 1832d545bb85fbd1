/** A worked example of the prompt selection of the EmProps extractor. */
module EmPropsCases {
  import opened Outcomes
  import opened Text
  import opened PyJson
  import opened EmProps

  /** A CLIPTextEncode node with the given title and text. */
  function TextNode(title: string, text: string): Json {
    JObj([Member("class_type", JStr("CLIPTextEncode")),
          Member("inputs", JObj([Member("text", JStr(text))])),
          Member("_meta", JObj([Member("title", JStr(title))]))])
  }

  /** What the extractor reads from such a node. */
  lemma TextNodeFields(node: Json, title: string, text: string)
    requires node == TextNode(title, text)
    ensures IsTextEncode(node) == Returned(true)
    ensures NodeText(node) == Returned(text)
    ensures Title(node) == Returned(JStr(title))
  {
    var ms := node.members;
    var inputs := JObj([Member("text", JStr(text))]);
    var meta := JObj([Member("title", JStr(title))]);
    assert |ms[0].key| == 10 && |ms[1].key| == 6 && |ms[2].key| == 5;
    assert ms[1..][1..] == [ms[2]];
    assert Lookup(ms, "class_type") == Some(JStr("CLIPTextEncode"));
    assert Lookup(ms, "inputs") == Some(inputs);
    assert Lookup(ms[1..][1..], "_meta") == Some(meta);
    assert Lookup(ms[1..], "_meta") == Some(meta);
    assert Lookup(ms, "_meta") == Some(meta);
    assert Lookup(inputs.members, "text") == Some(JStr(text));
    assert Lookup(meta.members, "title") == Some(JStr(title));
  }

  /** A title ending in "(Prompt)" over non-blank text is a positive prompt. */
  lemma DragonPositive(node: Json)
    requires node == TextNode("Positive (Prompt)", "a dragon")
    ensures IsPositive(node) == Returned(true)
  {
    TextNodeFields(node, "Positive (Prompt)", "a dragon");
    var t := "Positive (Prompt)";
    assert t[|t| - 8..] == "(Prompt)";
    assert Strip("a dragon") == "a dragon";
  }

  /** A title that mentions "(negative)" and does not end in "(Prompt)" is not. */
  lemma UglyNegative(node: Json)
    requires node == TextNode("Negative (negative)", "ugly")
    ensures IsPositive(node) == Returned(false)
  {
    TextNodeFields(node, "Negative (negative)", "ugly");
    NegativeTitle("Negative (negative)");
  }

  lemma NegativeTitle(t: string)
    requires t == "Negative (negative)"
    ensures !EndsWith(t, "(Prompt)") && Contains(Lower(t), "(negative)")
  {
    assert t[|t| - 8] == 'e';
    LowerNegative(t);
    assert "(negative)" <= Lower(t)[9..];
  }

  lemma LowerNegative(t: string)
    requires t == "Negative (negative)"
    ensures Lower(t)[9..] == "(negative)"
  {
    assert t[9..] == "(negative)";
    assert t == t[..9] + t[9..];
    LowerAppend(t[..9], t[9..]);
  }

  /** Two text nodes, the first positive and the second not: the prompt is the first one's text. */
  lemma PromptChoiceFirstOfTwo(a: Json, b: Json, text: string)
    requires IsTextEncode(a) == Returned(true) && IsTextEncode(b) == Returned(true)
    requires IsPositive(a) == Returned(true) && IsPositive(b) == Returned(false)
    requires NodeText(a) == Returned(text)
    ensures PromptChoice([a, b]) == Returned(Some(text))
  {
    var nodes := [a, b];
    FilterTwo(a, b, IsTextEncode);
    FilterTwo(a, b, IsPositive);
  }

  /** A positive node "a dragon" before a negative node "ugly": the prompt is "a dragon". */
  lemma DragonExample(nodes: seq<Json>)
    requires nodes == [TextNode("Positive (Prompt)", "a dragon"), TextNode("Negative (negative)", "ugly")]
    ensures PromptChoice(nodes) == Returned(Some("a dragon"))
  {
    TextNodeFields(nodes[0], "Positive (Prompt)", "a dragon");
    TextNodeFields(nodes[1], "Negative (negative)", "ugly");
    DragonPositive(nodes[0]);
    UglyNegative(nodes[1]);
    PromptChoiceFirstOfTwo(nodes[0], nodes[1], "a dragon");
  }
}
