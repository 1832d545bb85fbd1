/** The EmProps extractor: recognising a ComfyUI workflow saved by EmProps, and reading the
    prompt, the checkpoint and the sampler from its node graph. */
module EmProps {
  import opened Outcomes
  import opened Text
  import opened PyJson
  import opened Images
  import opened Record
  import opened Base

  /** `isinstance(node, dict) and node.get('class_type') == cls` */
  predicate HasClass(node: Json, cls: string) {
    node.JObj? && Lookup(node.members, "class_type") == Some(JStr(cls))
  }

  /** `'inputs' in node` for a dict `node`. */
  predicate HasInputs(node: Json) {
    node.JObj? && Lookup(node.members, "inputs").Some?
  }

  // ---------------------------------------------------------------------------------
  // is_compatible

  /** `is_compatible(image_info)`, with `loads` standing for `json.loads` (None: the text is
      not JSON). A document that is not an object has no `values()`: the AttributeError is
      not among the exceptions caught. */
  function IsCompatible(info: map<string, string>, loads: Loads): Outcome<bool> {
    if "prompt" !in info then Returned(false)
    else
      match loads(info["prompt"])
      case None => Returned(false)
      case Some(data) =>
        var nodes :- Values(data);
        Returned(HasSaver(nodes))
  }

  /** `any(node.get('class_type') == 'EmProps_S3_Saver' for node in nodes if isinstance(node, dict))` */
  predicate HasSaver(nodes: seq<Json>) {
    exists i :: 0 <= i < |nodes| && HasClass(nodes[i], "EmProps_S3_Saver")
  }

  /** The image is recognised exactly when its 'prompt' chunk is a JSON object one of whose
      members is a node of class EmProps_S3_Saver; the check raises only for a 'prompt' that
      is JSON but not an object, and answers False in every other case. */
  lemma IsCompatibleSpec(info: map<string, string>, loads: Loads)
    ensures IsCompatible(info, loads) == Returned(true) <==>
              "prompt" in info && loads(info["prompt"]).Some? && loads(info["prompt"]).value.JObj?
              && exists m :: m in loads(info["prompt"]).value.members && HasClass(m.value, "EmProps_S3_Saver")
    ensures IsCompatible(info, loads).Raised? <==>
              "prompt" in info && loads(info["prompt"]).Some? && !loads(info["prompt"]).value.JObj?
    ensures IsCompatible(info, loads).Raised? ==> IsCompatible(info, loads).error == AttributeError
  {
    if "prompt" in info && loads(info["prompt"]).Some? && loads(info["prompt"]).value.JObj? {
      var ms := loads(info["prompt"]).value.members;
      var nodes := Values(loads(info["prompt"]).value).value;
      assert IsCompatible(info, loads) == Returned(HasSaver(nodes));
      if exists m :: m in ms && HasClass(m.value, "EmProps_S3_Saver") {
        var m :| m in ms && HasClass(m.value, "EmProps_S3_Saver");
        var i :| 0 <= i < |ms| && ms[i] == m;
        assert HasClass(nodes[i], "EmProps_S3_Saver");
      }
      if HasSaver(nodes) {
        var i :| 0 <= i < |nodes| && HasClass(nodes[i], "EmProps_S3_Saver");
        assert ms[i].value == nodes[i] && ms[i] in ms;
      }
    }
  }

  // ---------------------------------------------------------------------------------
  // The node selections of extract_metadata

  /** The condition of `text_encode_nodes`: a CLIPTextEncode node with inputs that contain
      'text' (`in` on whatever value 'inputs' holds). */
  function IsTextEncode(node: Json): Outcome<bool> {
    if HasClass(node, "CLIPTextEncode") && HasInputs(node) then
      HasKey(Lookup(node.members, "inputs").value, "text")
    else Returned(false)
  }

  /** `node['inputs']['text']`, as the string its `str` methods need. */
  function NodeText(node: Json): Outcome<string> {
    var inputs :- Index(node, "inputs");
    var text :- Index(inputs, "text");
    AsText(text)
  }

  /** `node['inputs']['text'].strip() != ''` */
  function HasText(node: Json): Outcome<bool> {
    var text :- NodeText(node);
    Returned(Strip(text) != [])
  }

  /** `node.get('_meta', {}).get('title', '')` */
  function Title(node: Json): Outcome<Json> {
    var meta :- Get(node, "_meta", JObj([]));
    Get(meta, "title", JStr(""))
  }

  /** The condition of `positive_nodes`: a title ending in "(Prompt)" or not mentioning
      "(negative)" in any case, and text that is not blank. */
  function IsPositive(node: Json): Outcome<bool> {
    var titleValue :- Title(node);
    var title :- AsText(titleValue);
    if EndsWith(title, "(Prompt)") || !Contains(Lower(title), "(negative)") then HasText(node)
    else Returned(false)
  }

  /** The prompt `extract_metadata` stores, if any: the text of the first positive node, or
      else the text of the first text node that is not blank. */
  function PromptChoice(nodes: seq<Json>): Outcome<Option<string>> {
    var textEncodeNodes :- Filter(nodes, IsTextEncode);
    var positiveNodes :- Filter(textEncodeNodes, IsPositive);
    if positiveNodes != [] then
      var text :- NodeText(positiveNodes[0]);
      Returned(Some(text))
    else if textEncodeNodes != [] then
      var nonEmptyNodes :- Filter(textEncodeNodes, HasText);
      if nonEmptyNodes != [] then
        var text :- NodeText(nonEmptyNodes[0]);
        Returned(Some(text))
      else Returned(None)
    else Returned(None)
  }

  /** The condition of `checkpoint_nodes`. */
  function IsCheckpoint(node: Json): Outcome<bool> {
    Returned((HasClass(node, "CheckpointLoaderSimple") || HasClass(node, "UNETLoader")) && HasInputs(node))
  }

  /** The profile `extract_metadata` stores, if any: the model name of the first checkpoint
      node, `ckpt_name` before `unet_name`, with ".safetensors" removed; none when the name is
      empty. */
  function ProfileChoice(nodes: seq<Json>): Outcome<Option<string>> {
    var checkpointNodes :- Filter(nodes, IsCheckpoint);
    if checkpointNodes != [] then LoaderProfile(checkpointNodes[0]) else Returned(None)
  }

  /** The profile read from one checkpoint loader: `model_node.get('ckpt_name',
      model_node.get('unet_name', ''))`, kept when truthy, without ".safetensors". */
  function LoaderProfile(node: Json): Outcome<Option<string>> {
    var modelNode :- Index(node, "inputs");
    var unetName :- Get(modelNode, "unet_name", JStr(""));
    var modelName :- Get(modelNode, "ckpt_name", unetName);
    if Truthy(modelName) then
      var name :- AsText(modelName);
      Returned(Some(RemoveAll(name, ".safetensors")))
    else Returned(None)
  }

  /** The condition of `sampler_nodes`. */
  function IsSampler(node: Json): Outcome<bool> {
    Returned((HasClass(node, "KSampler") || HasClass(node, "SamplerCustomAdvanced")) && HasInputs(node))
  }

  /** The version `extract_metadata` stores, if any: `f"SD_{sampler_name}_{steps}steps"` from
      the first sampler node. Without a sampler node the code as written evaluates the `elif`
      condition, which reads `sampler_node` before any assignment; the corrected code leaves
      the version alone. */
  function VersionChoice(nodes: seq<Json>, rev: Revision): Outcome<Option<string>> {
    var samplerNodes :- Filter(nodes, IsSampler);
    if samplerNodes != [] then SamplerVersion(samplerNodes[0])
    else if rev == AsWritten then Raised(UnboundLocalError)
    else Returned(None)
  }

  /** The version read from one sampler node. */
  function SamplerVersion(node: Json): Outcome<Option<string>> {
    var samplerNode :- Index(node, "inputs");
    var samplerName :- Get(samplerNode, "sampler_name", JStr(""));
    var steps :- Get(samplerNode, "steps", JStr(""));
    Returned(Some("SD_" + PyStr(samplerName) + "_" + PyStr(steps) + "steps"))
  }

  // ---------------------------------------------------------------------------------
  // extract_metadata

  /** `image.info.get('prompt', '')` */
  function PromptData(image: Image): InfoValue {
    if "prompt" in image.info then image.info["prompt"] else Text("")
  }

  /** `not prompt_data`: empty text or empty bytes (the only bytes that decode to ""). */
  predicate IsEmptyData(v: InfoValue) {
    match v
    case Text(s) => s == []
    case Bytes(d) => d == Some([])
  }

  /** `json.loads(prompt_data)`: bytes are decoded as UTF-8 first. */
  function LoadPrompt(v: InfoValue, loads: Loads): Outcome<Json> {
    match Decoded(v)
    case None => Raised(UnicodeDecodeError)
    case Some(text) =>
      match loads(text)
      case None => Raised(JSONDecodeError)
      case Some(doc) => Returned(doc)
  }

  /** The exceptions the `except` clause catches. */
  predicate Caught(e: PyError) {
    e == JSONDecodeError || e == KeyError || e == IndexError
  }

  /** How the `try` block ended: the record as it then was, and the exception that ended it. */
  datatype Attempt = Attempt(record: Metadata, raised: Option<PyError>)

  /** The `try` block run on record `m`: each step either raises, leaving the record as the
      earlier steps left it, or stores what it chose. */
  function TryBlock(m: Metadata, promptData: InfoValue, loads: Loads, rev: Revision): Attempt {
    match LoadPrompt(promptData, loads)
    case Raised(e) => Attempt(m, Some(e))
    case Returned(jsonData) =>
      match Values(jsonData)
      case Raised(e) => Attempt(m, Some(e))
      case Returned(nodes) => StoreChoices(m, nodes, rev)
  }

  /** The steps of the `try` block after `json_data.values()`, on the graph's nodes. */
  function StoreChoices(m: Metadata, nodes: seq<Json>, rev: Revision): (r: Attempt)
    ensures r.record.(prompt := m.prompt, profile := m.profile, version := m.version, author := m.author) == m
    ensures r.raised.None? ==> r.record.author == "EmProps"
  {
    match PromptChoice(nodes)
    case Raised(e) => Attempt(m, Some(e))
    case Returned(prompt) =>
      var m1 := if prompt.Some? then m.(prompt := prompt.value) else m;
      match ProfileChoice(nodes)
      case Raised(e) => Attempt(m1, Some(e))
      case Returned(profile) =>
        var m2 := if profile.Some? then m1.(profile := profile.value) else m1;
        match VersionChoice(nodes, rev)
        case Raised(e) => Attempt(m2, Some(e))
        case Returned(version) =>
          var m3 := if version.Some? then m2.(version := version.value) else m2;
          Attempt(m3.(author := "EmProps"), None)
  }

  /** What `extract_metadata(image)` returns or raises. */
  function ExtractedResult(image: Image, loads: Loads, rev: Revision): Outcome<Option<Metadata>> {
    var promptData := PromptData(image);
    if IsEmptyData(promptData) then Returned(None)
    else
      var attempt := TryBlock(Default.(width := image.width, height := image.height), promptData, loads, rev);
      match attempt.raised
      case None => Returned(Some(attempt.record))
      case Some(e) =>
        if !Caught(e) then Raised(e)
        else if attempt.record.prompt == [] then Returned(None)
        else Returned(Some(attempt.record))
  }

  /** The `try` block of `extract_metadata`, updating `metadata` step by step; it returns the
      exception that ended it, if any. */
  method RunTryBlock(metadata: AIImageMetadata, promptData: InfoValue, loads: Loads, rev: Revision)
    returns (raised: Option<PyError>)
    modifies metadata
    ensures Attempt(metadata.Value(), raised) == TryBlock(old(metadata.Value()), promptData, loads, rev)
  {
    var loaded := LoadPrompt(promptData, loads);
    if loaded.Raised? {
      return Some(loaded.error);
    }
    var values := Values(loaded.value);
    if values.Raised? {
      return Some(values.error);
    }
    raised := StoreChoicesInto(metadata, values.value, rev);
  }

  /** The steps of the `try` block after `json_data.values()`, updating `metadata`. */
  method StoreChoicesInto(metadata: AIImageMetadata, nodes: seq<Json>, rev: Revision)
    returns (raised: Option<PyError>)
    modifies metadata
    ensures Attempt(metadata.Value(), raised) == StoreChoices(old(metadata.Value()), nodes, rev)
  {
    var prompt := PromptChoice(nodes);
    if prompt.Raised? {
      return Some(prompt.error);
    }
    if prompt.value.Some? {
      metadata.prompt := prompt.value.value;
    }
    var profile := ProfileChoice(nodes);
    if profile.Raised? {
      return Some(profile.error);
    }
    if profile.value.Some? {
      metadata.profile := profile.value.value;
    }
    var version := VersionChoice(nodes, rev);
    if version.Raised? {
      return Some(version.error);
    }
    if version.value.Some? {
      metadata.version := version.value.value;
    }
    // A datetime is always truthy: `if not metadata.created_date` never replaces the date.
    metadata.author := "EmProps";
    return None;
  }

  /** `EmPropsMetadataExtractor.extract_metadata` */
  method Extract(image: Image, loads: Loads, rev: Revision)
    returns (r: Outcome<Option<AIImageMetadata>>)
    ensures r.Returned? && r.value.Some? ==> fresh(r.value.value)
    ensures Snapshot(r) == ExtractedResult(image, loads, rev)
  {
    var metadata := new AIImageMetadata();
    metadata.width := image.width;
    metadata.height := image.height;
    var promptData := PromptData(image);
    if IsEmptyData(promptData) {
      return Returned(None);
    }
    var raised := RunTryBlock(metadata, promptData, loads, rev);
    if raised.None? {
      r := Returned(Some(metadata));
    } else if !Caught(raised.value) {
      r := Raised(raised.value);
    } else if metadata.prompt == [] {
      r := Returned(None);
    } else {
      r := Returned(Some(metadata));
    }
  }

  // ---------------------------------------------------------------------------------
  // What the selections choose

  /** A member of `text_encode_nodes`. */
  predicate IsTextNode(node: Json) {
    IsTextEncode(node) == Returned(true)
  }

  /** A member of `positive_nodes`. */
  predicate IsPositiveTextNode(node: Json) {
    IsTextNode(node) && IsPositive(node) == Returned(true)
  }

  /** A member of `non_empty_nodes`. */
  predicate IsNonBlankTextNode(node: Json) {
    IsTextNode(node) && HasText(node) == Returned(true)
  }

  /** A positive prompt node's text is not blank. */
  lemma PositiveIsNonBlank(node: Json)
    requires IsPositiveTextNode(node)
    ensures IsNonBlankTextNode(node)
    ensures NodeText(node).Returned? && Strip(NodeText(node).value) != []
  {
  }

  /** When the graph has a positive prompt node, the prompt is the text of the first one. */
  lemma PromptChoicePositive(nodes: seq<Json>)
    requires PromptChoice(nodes).Returned?
    requires exists i :: 0 <= i < |nodes| && IsPositiveTextNode(nodes[i])
    ensures exists i :: 0 <= i < |nodes| && IsPositiveTextNode(nodes[i])
                        && (forall j :: 0 <= j < i ==> !IsPositiveTextNode(nodes[j]))
                        && PromptChoice(nodes) == Returned(Some(NodeText(nodes[i]).value))
  {
    var textEncodeNodes := Filter(nodes, IsTextEncode).value;
    FilterFilter(nodes, IsTextEncode, IsPositive);
    FilterSpec(nodes, Both(IsTextEncode, IsPositive));
    var k :| 0 <= k < |nodes| && IsPositiveTextNode(nodes[k]);
    assert Both(IsTextEncode, IsPositive)(nodes[k]) == Returned(true);
    var positiveNodes := Filter(textEncodeNodes, IsPositive).value;
    assert positiveNodes != [];
    var i :| 0 <= i < |nodes| && positiveNodes[0] == nodes[i] && Both(IsTextEncode, IsPositive)(nodes[i]) == Returned(true)
             && forall j :: 0 <= j < i ==> Both(IsTextEncode, IsPositive)(nodes[j]) == Returned(false);
    PositiveIsNonBlank(nodes[i]);
  }

  /** Without a positive prompt node, the prompt is the text of the first text node whose text
      is not blank, and there is none when no text node has such text. */
  lemma PromptChoiceFallback(nodes: seq<Json>)
    requires PromptChoice(nodes).Returned?
    requires forall i :: 0 <= i < |nodes| ==> !IsPositiveTextNode(nodes[i])
    ensures PromptChoice(nodes).value.Some? <==> exists i :: 0 <= i < |nodes| && IsNonBlankTextNode(nodes[i])
    ensures PromptChoice(nodes).value.Some? ==>
              exists i :: 0 <= i < |nodes| && IsNonBlankTextNode(nodes[i])
                          && (forall j :: 0 <= j < i ==> !IsNonBlankTextNode(nodes[j]))
                          && PromptChoice(nodes).value.value == NodeText(nodes[i]).value
  {
    var textEncodeNodes := Filter(nodes, IsTextEncode).value;
    FilterFilter(nodes, IsTextEncode, IsPositive);
    FilterSpec(nodes, Both(IsTextEncode, IsPositive));
    forall i | 0 <= i < |nodes| ensures Both(IsTextEncode, IsPositive)(nodes[i]) == Returned(false) {
      assert !IsPositiveTextNode(nodes[i]);
    }
    assert Filter(textEncodeNodes, IsPositive).value == [];
    FilterSpec(nodes, IsTextEncode);
    if textEncodeNodes == [] {
      forall i | 0 <= i < |nodes| ensures !IsNonBlankTextNode(nodes[i]) {
        assert IsTextEncode(nodes[i]) == Returned(false);
      }
    } else {
      FilterFilter(nodes, IsTextEncode, HasText);
      FilterSpec(nodes, Both(IsTextEncode, HasText));
      forall i | 0 <= i < |nodes| ensures IsNonBlankTextNode(nodes[i]) <==> Both(IsTextEncode, HasText)(nodes[i]) == Returned(true) {
      }
    }
  }

  /** The exceptions the graph steps can raise: TypeError and AttributeError for values of an
      unexpected type, and, as written, UnboundLocalError without a sampler node. None of them
      is among those the `except` clause catches. */
  predicate GraphError(e: PyError, rev: Revision) {
    e == TypeError || e == AttributeError || (rev == AsWritten && e == UnboundLocalError)
  }

  /** The conditions evaluated on a text node raise only graph errors. */
  lemma TextNodeErrors(node: Json, rev: Revision)
    requires IsTextNode(node)
    ensures NodeText(node).Raised? ==> GraphError(NodeText(node).error, rev)
    ensures HasText(node).Raised? ==> GraphError(HasText(node).error, rev)
    ensures IsPositive(node).Raised? ==> GraphError(IsPositive(node).error, rev)
  {
    var inputs := Lookup(node.members, "inputs").value;
    assert Index(node, "inputs") == Returned(inputs);
    if inputs.JObj? {
      assert Lookup(inputs.members, "text").Some?;
    }
  }

  lemma PromptChoiceErrors(nodes: seq<Json>, rev: Revision)
    ensures PromptChoice(nodes).Raised? ==> GraphError(PromptChoice(nodes).error, rev)
  {
    FilterRaises(nodes, IsTextEncode);
    var encoded := Filter(nodes, IsTextEncode);
    if encoded.Returned? {
      var textEncodeNodes := encoded.value;
      FilterSpec(nodes, IsTextEncode);
      FilterRaises(textEncodeNodes, IsPositive);
      FilterRaises(textEncodeNodes, HasText);
      forall y | y in textEncodeNodes
        ensures HasText(y).Raised? ==> GraphError(HasText(y).error, rev)
        ensures IsPositive(y).Raised? ==> GraphError(IsPositive(y).error, rev)
      {
        TextNodeErrors(y, rev);
      }
      var positive := Filter(textEncodeNodes, IsPositive);
      if positive.Returned? && positive.value != [] {
        FilterSpec(textEncodeNodes, IsPositive);
        assert positive.value[0] in positive.value;
      }
      var nonEmpty := Filter(textEncodeNodes, HasText);
      if nonEmpty.Returned? && nonEmpty.value != [] {
        FilterSpec(textEncodeNodes, HasText);
        assert nonEmpty.value[0] in nonEmpty.value;
      }
    }
  }

  lemma ProfileChoiceErrors(nodes: seq<Json>, rev: Revision)
    ensures ProfileChoice(nodes).Raised? ==> GraphError(ProfileChoice(nodes).error, rev)
  {
    FilterRaises(nodes, IsCheckpoint);
    var checkpointNodes := Filter(nodes, IsCheckpoint).value;
    if checkpointNodes != [] {
      FilterSpec(nodes, IsCheckpoint);
      assert checkpointNodes[0] in checkpointNodes;
    }
  }

  lemma VersionChoiceErrors(nodes: seq<Json>, rev: Revision)
    ensures VersionChoice(nodes, rev).Raised? ==> GraphError(VersionChoice(nodes, rev).error, rev)
  {
    FilterRaises(nodes, IsSampler);
    var samplerNodes := Filter(nodes, IsSampler).value;
    if samplerNodes != [] {
      FilterSpec(nodes, IsSampler);
      assert samplerNodes[0] in samplerNodes;
    }
  }

  /** The steps after `json_data.values()` raise only graph errors. */
  lemma StoreChoicesErrors(m: Metadata, nodes: seq<Json>, rev: Revision)
    ensures StoreChoices(m, nodes, rev).raised.Some? ==> GraphError(StoreChoices(m, nodes, rev).raised.value, rev)
  {
    PromptChoiceErrors(nodes, rev);
    ProfileChoiceErrors(nodes, rev);
    VersionChoiceErrors(nodes, rev);
  }

  /** `node['inputs']` of a node known to have inputs. */
  function Inputs(node: Json): Json
    requires HasInputs(node)
  {
    Lookup(node.members, "inputs").value
  }

  /** A member of `checkpoint_nodes`. */
  predicate IsCheckpointNode(node: Json) {
    IsCheckpoint(node) == Returned(true)
  }

  /** `nodes[i]` is the first checkpoint loader of the graph. */
  predicate FirstCheckpoint(nodes: seq<Json>, i: int) {
    0 <= i < |nodes| && IsCheckpointNode(nodes[i]) && forall j :: 0 <= j < i ==> !IsCheckpointNode(nodes[j])
  }

  /** The model file a loader's inputs name: `ckpt_name` when present, else `unet_name`, else
      the empty string. */
  function ModelName(inputs: Json): Json
    requires inputs.JObj?
  {
    match Lookup(inputs.members, "ckpt_name")
    case Some(name) => name
    case None =>
      match Lookup(inputs.members, "unet_name")
      case Some(name) => name
      case None => JStr("")
  }

  /** The profile is the model file named by the first checkpoint loader, with ".safetensors"
      removed; there is none when the graph has no loader or the first one names no file. */
  lemma ProfileChoiceSpec(nodes: seq<Json>)
    requires ProfileChoice(nodes).Returned?
    ensures ProfileChoice(nodes).value.None? ==>
              forall i :: FirstCheckpoint(nodes, i) ==> Inputs(nodes[i]).JObj? && !Truthy(ModelName(Inputs(nodes[i])))
    ensures ProfileChoice(nodes).value.Some? ==>
              exists i :: FirstCheckpoint(nodes, i) && Inputs(nodes[i]).JObj? && ModelName(Inputs(nodes[i])).JStr?
                          && ModelName(Inputs(nodes[i])).s != []
                          && ProfileChoice(nodes).value.value == RemoveAll(ModelName(Inputs(nodes[i])).s, ".safetensors")
  {
    FilterSpec(nodes, IsCheckpoint);
    forall i | FirstCheckpoint(nodes, i)
      ensures ProfileChoice(nodes) == LoaderProfile(nodes[i])
      ensures Inputs(nodes[i]).JObj? && (Truthy(ModelName(Inputs(nodes[i]))) <==> ProfileChoice(nodes).value.Some?)
    {
      FilterFirst(nodes, IsCheckpoint, i);
      LoaderProfileSpec(nodes[i]);
    }
    var checkpointNodes := Filter(nodes, IsCheckpoint).value;
    if checkpointNodes != [] {
      var i :| 0 <= i < |nodes| && checkpointNodes[0] == nodes[i] && IsCheckpoint(nodes[i]) == Returned(true)
               && forall j :: 0 <= j < i ==> IsCheckpoint(nodes[j]) == Returned(false);
      assert FirstCheckpoint(nodes, i);
      LoaderProfileSpec(nodes[i]);
    }
  }

  /** A loader that yields a profile has inputs naming a non-empty model file, and the profile
      is that name without ".safetensors". */
  lemma LoaderProfileSpec(node: Json)
    requires IsCheckpointNode(node) && LoaderProfile(node).Returned?
    ensures Inputs(node).JObj?
    ensures LoaderProfile(node).value.Some? <==> Truthy(ModelName(Inputs(node)))
    ensures LoaderProfile(node).value.Some? ==>
              ModelName(Inputs(node)).JStr? && ModelName(Inputs(node)).s != []
              && LoaderProfile(node).value.value == RemoveAll(ModelName(Inputs(node)).s, ".safetensors")
  {
    assert Index(node, "inputs") == Returned(Inputs(node));
  }

  /** A model file named `base + ".safetensors"` gives the profile `base`. */
  lemma SafetensorsRemoved(base: string, ext: string)
    requires ext == ".safetensors"
    requires !Contains(base, ext)
    ensures RemoveAll(base + ext, ext) == base
  {
    forall k | 0 < k < |ext| ensures ext[|ext| - k..] != ext[..k] {
      assert ext[|ext| - k..][0] == ext[|ext| - k] != '.';
      assert ext[..k][0] == '.';
    }
    RemoveAllSuffix(base, ext);
  }

  /** A member of `sampler_nodes`. */
  predicate IsSamplerNode(node: Json) {
    IsSampler(node) == Returned(true)
  }

  /** `nodes[i]` is the first sampler of the graph. */
  predicate FirstSampler(nodes: seq<Json>, i: int) {
    0 <= i < |nodes| && IsSamplerNode(nodes[i]) && forall j :: 0 <= j < i ==> !IsSamplerNode(nodes[j])
  }

  /** A version is recorded exactly when the graph has a sampler, and then both revisions agree;
      without one the code as written raises UnboundLocalError where the corrected code
      records no version. */
  lemma VersionChoiceSpec(nodes: seq<Json>)
    ensures (forall i :: 0 <= i < |nodes| ==> !IsSamplerNode(nodes[i])) ==>
              VersionChoice(nodes, AsWritten) == Raised(UnboundLocalError)
              && VersionChoice(nodes, Corrected) == Returned(None)
    ensures (exists i :: 0 <= i < |nodes| && IsSamplerNode(nodes[i])) ==>
              VersionChoice(nodes, AsWritten) == VersionChoice(nodes, Corrected)
              && (VersionChoice(nodes, Corrected).Returned? ==> VersionChoice(nodes, Corrected).value.Some?)
  {
    FilterRaises(nodes, IsSampler);
    FilterSpec(nodes, IsSampler);
    var samplerNodes := Filter(nodes, IsSampler).value;
    if forall i :: 0 <= i < |nodes| ==> !IsSamplerNode(nodes[i]) {
      assert samplerNodes == [];
    } else {
      var k :| 0 <= k < |nodes| && IsSamplerNode(nodes[k]);
      assert IsSampler(nodes[k]) != Returned(false);
    }
  }

  /** The version string for a sampler with algorithm `name` and `steps` steps: the step count
      can be read back from the digits before "steps". */
  lemma VersionStringDigits(name: string, steps: nat)
    ensures var v := "SD_" + name + "_" + PyStr(JInt(steps)) + "steps";
            StartsWith(v, "SD_" + name + "_") && EndsWith(v, "steps") && |name| + 4 <= |v| - 5
            && (forall k :: |name| + 4 <= k < |v| - 5 ==> IsDigit(v[k]))
            && DecimalValue(v[|name| + 4..|v| - 5]) == steps
  {
    var digits := NatToString(steps);
    var v := "SD_" + name + "_" + PyStr(JInt(steps)) + "steps";
    assert PyStr(JInt(steps)) == digits;
    assert v[..|name| + 4] == "SD_" + name + "_";
    assert v[|v| - 5..] == "steps";
    assert v[|name| + 4..|v| - 5] == digits;
    NatToStringRoundTrip(steps);
  }

  /** `inputs.get(key, '')` on a sampler's inputs. */
  function InputOr(inputs: Json, key: string): Json
    requires inputs.JObj?
  {
    match Lookup(inputs.members, key)
    case Some(v) => v
    case None => JStr("")
  }

  /** The version names the first sampler's algorithm and step count, each rendered by `str`,
      and "" for a key the sampler's inputs do not have; it is the same in both revisions. */
  lemma VersionRecordsSampler(nodes: seq<Json>, rev: Revision, i: int)
    requires FirstSampler(nodes, i) && Inputs(nodes[i]).JObj?
    ensures VersionChoice(nodes, rev) ==
              Returned(Some("SD_" + PyStr(InputOr(Inputs(nodes[i]), "sampler_name")) + "_"
                            + PyStr(InputOr(Inputs(nodes[i]), "steps")) + "steps"))
  {
    FilterRaises(nodes, IsSampler);
    FilterFirst(nodes, IsSampler, i);
    assert Index(nodes[i], "inputs") == Returned(Inputs(nodes[i]));
  }

  // ---------------------------------------------------------------------------------
  // What extract_metadata returns

  /** `json.loads(prompt_data).values()`: the nodes of the workflow graph. */
  function GraphNodes(image: Image, loads: Loads): Outcome<seq<Json>> {
    var doc :- LoadPrompt(PromptData(image), loads);
    Values(doc)
  }

  /** The `except` clause never returns a partial record: the only exception it can catch is
      the JSONDecodeError of `json.loads`, raised before anything is stored, so a record is
      returned only when the whole `try` block ran. Every other exception escapes. */
  lemma NoPartialRecord(image: Image, loads: Loads, rev: Revision)
    ensures ExtractedResult(image, loads, rev) == Returned(None) <==>
              IsEmptyData(PromptData(image)) || LoadPrompt(PromptData(image), loads) == Raised(JSONDecodeError)
    ensures ExtractedResult(image, loads, rev).Returned? && ExtractedResult(image, loads, rev).value.Some? ==>
              var m := ExtractedResult(image, loads, rev).value.value;
              GraphNodes(image, loads).Returned?
              && m.author == "EmProps" && m.width == image.width && m.height == image.height
              && m.jobId == "" && m.createdDate == ImportTime && m.sourceModel == "unknown"
    ensures ExtractedResult(image, loads, rev).Raised? ==>
              ExtractedResult(image, loads, rev).error == UnicodeDecodeError
              || GraphError(ExtractedResult(image, loads, rev).error, rev)
  {
    var promptData := PromptData(image);
    var m0 := Default.(width := image.width, height := image.height);
    if !IsEmptyData(promptData) && LoadPrompt(promptData, loads).Returned? {
      var doc := LoadPrompt(promptData, loads).value;
      if doc.JObj? {
        var nodes := Values(doc).value;
        assert TryBlock(m0, promptData, loads, rev) == StoreChoices(m0, nodes, rev);
        StoreChoicesErrors(m0, nodes, rev);
      }
    }
  }

  /** What the prompt of a record taken from the graph `nodes` can be: the text of a text node
      whose text is not blank, the first positive one if any; empty only when no text node has
      such text. */
  predicate PromptFromGraph(nodes: seq<Json>, prompt: string) {
    (prompt != [] <==> exists i :: 0 <= i < |nodes| && IsNonBlankTextNode(nodes[i]))
    && (prompt != [] ==> exists i :: 0 <= i < |nodes| && IsNonBlankTextNode(nodes[i])
                                     && NodeText(nodes[i]) == Returned(prompt))
    && ((exists i :: 0 <= i < |nodes| && IsPositiveTextNode(nodes[i])) ==>
          exists i :: 0 <= i < |nodes| && IsPositiveTextNode(nodes[i])
                      && (forall j :: 0 <= j < i ==> !IsPositiveTextNode(nodes[j]))
                      && NodeText(nodes[i]) == Returned(prompt))
  }

  /** The prompt choice, stored on an empty prompt, gives a prompt the graph accounts for. */
  lemma PromptChoiceMeaning(nodes: seq<Json>)
    requires PromptChoice(nodes).Returned?
    ensures PromptFromGraph(nodes, if PromptChoice(nodes).value.Some? then PromptChoice(nodes).value.value else [])
  {
    var prompt := PromptChoice(nodes);
    if exists i :: 0 <= i < |nodes| && IsPositiveTextNode(nodes[i]) {
      PromptChoicePositive(nodes);
      var k :| 0 <= k < |nodes| && IsPositiveTextNode(nodes[k])
               && (forall j :: 0 <= j < k ==> !IsPositiveTextNode(nodes[j]))
               && prompt == Returned(Some(NodeText(nodes[k]).value));
      PositiveIsNonBlank(nodes[k]);
    } else {
      PromptChoiceFallback(nodes);
      if prompt.value.Some? {
        var i :| 0 <= i < |nodes| && IsNonBlankTextNode(nodes[i])
                 && prompt.value.value == NodeText(nodes[i]).value;
        assert Strip(prompt.value.value) != [];
      }
    }
  }

  /** A returned record is the one the graph steps built on the image's size. */
  lemma ReturnedRecord(image: Image, loads: Loads, rev: Revision)
    requires ExtractedResult(image, loads, rev).Returned? && ExtractedResult(image, loads, rev).value.Some?
    ensures GraphNodes(image, loads).Returned?
    ensures StoreChoices(Default.(width := image.width, height := image.height), GraphNodes(image, loads).value, rev)
              == Attempt(ExtractedResult(image, loads, rev).value.value, None)
  {
    NoPartialRecord(image, loads, rev);
    var m0 := Default.(width := image.width, height := image.height);
    var nodes := GraphNodes(image, loads).value;
    assert TryBlock(m0, PromptData(image), loads, rev) == StoreChoices(m0, nodes, rev);
  }

  /** Graph steps that ran to the end stored the prompt, profile and version choices, each
      over what the record held when it chose nothing, and the author. */
  lemma CompletedChoices(m: Metadata, nodes: seq<Json>, rev: Revision)
    requires StoreChoices(m, nodes, rev).raised.None?
    ensures PromptChoice(nodes).Returned? && ProfileChoice(nodes).Returned? && VersionChoice(nodes, rev).Returned?
    ensures StoreChoices(m, nodes, rev).record.prompt
              == if PromptChoice(nodes).value.Some? then PromptChoice(nodes).value.value else m.prompt
    ensures StoreChoices(m, nodes, rev).record.profile
              == if ProfileChoice(nodes).value.Some? then ProfileChoice(nodes).value.value else m.profile
    ensures StoreChoices(m, nodes, rev).record.version
              == if VersionChoice(nodes, rev).value.Some? then VersionChoice(nodes, rev).value.value else m.version
    ensures StoreChoices(m, nodes, rev).record.author == "EmProps"
  {
  }

  /** The prompt of a returned record is one the graph accounts for; as written, a record is
      returned only for a graph with a sampler node. */
  lemma ExtractedContents(image: Image, loads: Loads, rev: Revision)
    requires ExtractedResult(image, loads, rev).Returned? && ExtractedResult(image, loads, rev).value.Some?
    ensures GraphNodes(image, loads).Returned?
    ensures PromptFromGraph(GraphNodes(image, loads).value, ExtractedResult(image, loads, rev).value.value.prompt)
    ensures rev == AsWritten ==>
              exists i :: 0 <= i < |GraphNodes(image, loads).value| && IsSamplerNode(GraphNodes(image, loads).value[i])
  {
    ReturnedRecord(image, loads, rev);
    var m0 := Default.(width := image.width, height := image.height);
    var nodes := GraphNodes(image, loads).value;
    CompletedChoices(m0, nodes, rev);
    PromptChoiceMeaning(nodes);
    VersionChoiceSpec(nodes);
  }

  /** A workflow whose only node is the EmProps saver: the image is recognised as EmProps, and
      the code as written then raises UnboundLocalError from the sampler step, where the
      corrected code returns a record with the image's size and the author. */
  lemma SaverOnlyGraph(image: Image, loads: Loads, text: string)
    requires text != [] && image.info == map["prompt" := Text(text)]
    requires loads(text) == Some(JObj([Member("9", JObj([Member("class_type", JStr("EmProps_S3_Saver"))]))]))
    ensures IsCompatible(DecodedInfo(image.info), loads) == Returned(true)
    ensures ExtractedResult(image, loads, AsWritten) == Raised(UnboundLocalError)
    ensures ExtractedResult(image, loads, Corrected)
              == Returned(Some(Default.(width := image.width, height := image.height, author := "EmProps")))
  {
    var saver := JObj([Member("class_type", JStr("EmProps_S3_Saver"))]);
    SaverOnlyNodes(image, loads, text, saver);
    SaverOnlyChoices(saver);
  }

  /** The saver node is neither a text encoder, nor a checkpoint loader, nor a sampler. */
  lemma SaverOnlyChoices(saver: Json)
    requires saver == JObj([Member("class_type", JStr("EmProps_S3_Saver"))])
    ensures PromptChoice([saver]) == Returned(None) && ProfileChoice([saver]) == Returned(None)
    ensures Filter([saver], IsSampler) == Returned([])
  {
    assert Filter([saver], IsTextEncode) == Returned([]);
    assert Filter([saver], IsCheckpoint) == Returned([]);
  }

  /** The saver-only workflow is recognised and decodes to its single node. */
  lemma SaverOnlyNodes(image: Image, loads: Loads, text: string, saver: Json)
    requires text != [] && image.info == map["prompt" := Text(text)]
    requires saver == JObj([Member("class_type", JStr("EmProps_S3_Saver"))])
    requires loads(text) == Some(JObj([Member("9", saver)]))
    ensures IsCompatible(DecodedInfo(image.info), loads) == Returned(true)
    ensures GraphNodes(image, loads) == Returned([saver])
  {
    assert DecodedInfo(image.info) == map["prompt" := text];
    assert HasClass(saver, "EmProps_S3_Saver");
    var doc := JObj([Member("9", saver)]);
    assert PromptData(image) == Text(text);
    assert LoadPrompt(PromptData(image), loads) == Returned(doc);
    assert Values(doc).value == [saver];
    assert HasSaver([saver]) by { assert [saver][0] == saver; }
  }
}
