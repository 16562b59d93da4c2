/** The model catalog, the message lists handed to the chat backend, and the
    filter that strips `<think>` reasoning from a reply (ollama_tools.py). */
module OllamaTools {
  import opened Text

  const SystemConcise: string := "Keep your responses no more than 50 words."

  // ---------------------------------------------------------------------------
  // Model catalog: aliases
  // ---------------------------------------------------------------------------

  /** One step of the alias chain: a raw model name containing `pattern` is shown as `alias`. */
  datatype AliasRule = AliasRule(pattern: string, alias: string)

  /** The alias rules in the order the chain tries them. */
  const AliasRules: seq<AliasRule> := [
    AliasRule("phi", "Phi 3"),
    AliasRule("qwen", "Qwen 2.5"),
    AliasRule("gemma", "Gemma 3"),
    AliasRule("uncensored", "Unhinged llama"),
    AliasRule("llama", "Llama 2"),
    AliasRule("mistral", "Mistral")
  ]

  /** The six display aliases. */
  const AliasNames: set<string> := {"Phi 3", "Qwen 2.5", "Gemma 3", "Unhinged llama", "Llama 2", "Mistral"}

  /** The index of the first rule whose pattern occurs in `model`. */
  function FirstMatch(rules: seq<AliasRule>, model: string): (r: Option<nat>)
    ensures r.Some? ==> r.value < |rules| && Contains(model, rules[r.value].pattern)
    ensures r.Some? ==> forall j :: 0 <= j < r.value ==> !Contains(model, rules[j].pattern)
    ensures r.None? ==> forall j :: 0 <= j < |rules| ==> !Contains(model, rules[j].pattern)
  {
    if |rules| == 0 then None
    else if Contains(model, rules[0].pattern) then Some(0)
    else
      match FirstMatch(rules[1..], model)
      case None => None
      case Some(i) => Some(i + 1)
  }

  /** The alias a raw model name receives, or None when no rule matches;
      every alias handed out is one of the six display aliases. */
  function RuleAlias(model: string): (alias: Option<string>)
    ensures alias.Some? ==> alias.value in AliasNames
    ensures alias.None? <==> forall j :: 0 <= j < |AliasRules| ==> !Contains(model, AliasRules[j].pattern)
  {
    match FirstMatch(AliasRules, model)
    case None => None
    case Some(i) => Some(AliasRules[i].alias)
  }

  /** The source's if/elif chain, condition by condition, picks the same alias
      as the ordered rule table (including the redundant
      `"uncensored" not in model` guard on the llama branch). */
  lemma RuleAliasIsChain(model: string)
    ensures RuleAlias(model) ==
      if Contains(model, "phi") then Some("Phi 3")
      else if Contains(model, "qwen") then Some("Qwen 2.5")
      else if Contains(model, "gemma") then Some("Gemma 3")
      else if Contains(model, "uncensored") then Some("Unhinged llama")
      else if Contains(model, "llama") && !Contains(model, "uncensored") then Some("Llama 2")
      else if Contains(model, "mistral") then Some("Mistral")
      else None
  {
    var r := FirstMatch(AliasRules, model);
    assert |AliasRules| == 6;
    assert AliasRules[0].pattern == "phi" && AliasRules[1].pattern == "qwen" && AliasRules[2].pattern == "gemma";
    assert AliasRules[3].pattern == "uncensored" && AliasRules[4].pattern == "llama" && AliasRules[5].pattern == "mistral";
    if r.Some? {
      var i := r.value;
      if i >= 1 { assert !Contains(model, AliasRules[0].pattern); }
      if i >= 2 { assert !Contains(model, AliasRules[1].pattern); }
      if i >= 3 { assert !Contains(model, AliasRules[2].pattern); }
      if i >= 4 { assert !Contains(model, AliasRules[3].pattern); }
      if i >= 5 { assert !Contains(model, AliasRules[4].pattern); }
    } else {
      assert !Contains(model, AliasRules[0].pattern) && !Contains(model, AliasRules[1].pattern);
      assert !Contains(model, AliasRules[2].pattern) && !Contains(model, AliasRules[3].pattern);
      assert !Contains(model, AliasRules[4].pattern) && !Contains(model, AliasRules[5].pattern);
    }
  }

  /** Priority: a name containing "uncensored" is never shown as "Llama 2",
      and one that also contains "llama" (but none of phi, qwen, gemma) is
      shown as "Unhinged llama". */
  lemma UncensoredBeatsLlama(model: string)
    requires Contains(model, "uncensored")
    ensures RuleAlias(model) != Some("Llama 2")
    ensures !Contains(model, "phi") && !Contains(model, "qwen") && !Contains(model, "gemma") ==>
      RuleAlias(model) == Some("Unhinged llama")
  {
    RuleAliasIsChain(model);
  }

  /** The dictionary one pass over `names` builds when `aliasOf` gives the
      key each name is stored under (None: the name is skipped); a later
      name overwrites what an earlier one stored under the same key. */
  function TableOf(aliasOf: string -> Option<string>, names: seq<string>): (table: map<string, string>)
    ensures forall alias :: alias in table ==> table[alias] in names && aliasOf(table[alias]) == Some(alias)
    decreases |names|
  {
    if |names| == 0 then map[]
    else
      var table := TableOf(aliasOf, names[..|names| - 1]);
      var model := names[|names| - 1];
      match aliasOf(model)
      case None => table
      case Some(alias) => table[alias := model]
  }

  /** The alias table after the loop has seen `names`: every key is a
      display alias, and it holds one of the input names that receives
      that alias. */
  function AliasTable(names: seq<string>): (table: map<string, string>)
    ensures table.Keys <= AliasNames
    ensures forall alias :: alias in table ==> table[alias] in names && RuleAlias(table[alias]) == Some(alias)
  {
    TableOf(RuleAlias, names)
  }

  /** assign_model_aliases: fills the alias dictionary in one pass over the names. */
  method AssignModelAliases(modelNames: seq<string>) returns (modelData: map<string, string>)
    ensures modelData == AliasTable(modelNames)
  {
    modelData := map[];
    for i := 0 to |modelNames|
      invariant modelData == AliasTable(modelNames[..i])
    {
      var model := modelNames[i];
      RuleAliasIsChain(model);
      AliasTableStep(modelNames, i);
      if Contains(model, "phi") {
        modelData := modelData["Phi 3" := model];
      } else if Contains(model, "qwen") {
        modelData := modelData["Qwen 2.5" := model];
      } else if Contains(model, "gemma") {
        modelData := modelData["Gemma 3" := model];
      } else if Contains(model, "uncensored") {
        modelData := modelData["Unhinged llama" := model];
      } else if Contains(model, "llama") && !Contains(model, "uncensored") {
        modelData := modelData["Llama 2" := model];
      } else if Contains(model, "mistral") {
        modelData := modelData["Mistral" := model];
      }
    }
    assert modelNames[..|modelNames|] == modelNames;
  }

  /** One more name: the table either skips it or stores it under its alias. */
  lemma AliasTableStep(names: seq<string>, i: nat)
    requires i < |names|
    ensures AliasTable(names[..i + 1]) ==
      match RuleAlias(names[i])
      case None => AliasTable(names[..i])
      case Some(alias) => AliasTable(names[..i])[alias := names[i]]
  {
    assert names[..i + 1][..i] == names[..i];
  }

  /** Only keys some name maps to are present, each holding one of those names. */
  lemma {:induction false} TableEntryFromName(aliasOf: string -> Option<string>, names: seq<string>, alias: string)
    requires alias in TableOf(aliasOf, names)
    ensures exists i :: 0 <= i < |names| && aliasOf(names[i]) == Some(alias) && TableOf(aliasOf, names)[alias] == names[i]
    decreases |names|
  {
    var last := |names| - 1;
    if aliasOf(names[last]) != Some(alias) {
      var init := names[..last];
      TableEntryFromName(aliasOf, init, alias);
      var i :| 0 <= i < |init| && aliasOf(init[i]) == Some(alias) && TableOf(aliasOf, init)[alias] == init[i];
      assert names[i] == init[i];
    }
  }

  /** Last write wins: when `names[j]` is the last name mapping to `alias`,
      the table stores `names[j]` under `alias`. */
  lemma {:induction false} TableLastWriteWins(aliasOf: string -> Option<string>, names: seq<string>, alias: string, j: nat)
    requires j < |names| && aliasOf(names[j]) == Some(alias)
    requires forall i :: j < i < |names| ==> aliasOf(names[i]) != Some(alias)
    ensures alias in TableOf(aliasOf, names) && TableOf(aliasOf, names)[alias] == names[j]
    decreases |names|
  {
    var last := |names| - 1;
    var init := names[..last];
    if j < last {
      TableLastWriteWins(aliasOf, init, alias, j);
    }
  }

  /** A name that matches no rule is dropped: it is not among the values. */
  lemma UnmatchedNameDropped(names: seq<string>, model: string)
    requires RuleAlias(model).None?
    ensures model !in AliasTable(names).Values
  {
    forall alias | alias in AliasTable(names)
      ensures AliasTable(names)[alias] != model
    {
    }
  }

  // ---------------------------------------------------------------------------
  // Model catalog: splitting into two pools
  // ---------------------------------------------------------------------------

  predicate NoDuplicates<T(==)>(s: seq<T>)
  {
    forall i, j :: 0 <= i < j < |s| ==> s[i] != s[j]
  }

  /** `shuffled` is the key list after `random.shuffle`: every key exactly once. */
  predicate IsShuffleOf(shuffled: seq<string>, keys: set<string>)
  {
    NoDuplicates(shuffled) && (set k | k in shuffled) == keys
  }

  /** A list without duplicates has as many distinct elements as it is long. */
  lemma {:induction false} DistinctElementsCount<T>(s: seq<T>)
    requires NoDuplicates(s)
    ensures |set x | x in s| == |s|
  {
    if |s| > 0 {
      DistinctElementsCount(s[1..]);
      assert (set x | x in s) == {s[0]} + (set x | x in s[1..]);
      assert s[0] !in (set x | x in s[1..]);
    }
  }

  /** Cutting a duplicate-free list at `mid` splits its elements into two
      disjoint sets of sizes `mid` and the rest. */
  lemma CutElements<T>(s: seq<T>, mid: nat)
    requires NoDuplicates(s) && mid <= |s|
    ensures |set x | x in s[..mid]| == mid && |set x | x in s[mid..]| == |s| - mid
    ensures (set x | x in s[..mid]) !! (set x | x in s[mid..])
    ensures (set x | x in s[..mid]) + (set x | x in s[mid..]) == set x | x in s
  {
    assert NoDuplicates(s[..mid]) by {
      forall i, j | 0 <= i < j < mid
        ensures s[..mid][i] != s[..mid][j]
      {
        assert s[..mid][i] == s[i] && s[..mid][j] == s[j];
      }
    }
    assert NoDuplicates(s[mid..]) by {
      forall i, j | 0 <= i < j < |s| - mid
        ensures s[mid..][i] != s[mid..][j]
      {
        assert s[mid..][i] == s[mid + i] && s[mid..][j] == s[mid + j];
      }
    }
    DistinctElementsCount(s[..mid]);
    DistinctElementsCount(s[mid..]);
    CutHalvesDisjoint(s, mid);
    CutHalvesCover(s, mid);
  }

  lemma CutHalvesDisjoint<T>(s: seq<T>, mid: nat)
    requires NoDuplicates(s) && mid <= |s|
    ensures (set x | x in s[..mid]) !! (set x | x in s[mid..])
  {
    forall x | x in s[..mid]
      ensures x !in s[mid..]
    {
      var i :| 0 <= i < mid && s[..mid][i] == x;
      forall j | 0 <= j < |s| - mid
        ensures s[mid..][j] != x
      {
        assert s[mid..][j] == s[mid + j] && x == s[i];
      }
    }
  }

  lemma CutHalvesCover<T>(s: seq<T>, mid: nat)
    requires mid <= |s|
    ensures (set x | x in s[..mid]) + (set x | x in s[mid..]) == set x | x in s
  {
    assert s == s[..mid] + s[mid..];
  }

  /** split_models_into_groups with the shuffle taken as a parameter: the first
      floor half of the shuffled keys goes left, the rest goes right. */
  function SplitModelsIntoGroups(modelData: map<string, string>, shuffled: seq<string>)
    : (groups: (map<string, string>, map<string, string>))
    requires IsShuffleOf(shuffled, modelData.Keys)
    ensures groups.0.Keys == set k | k in shuffled[..|shuffled| / 2]
    ensures groups.1.Keys == set k | k in shuffled[|shuffled| / 2..]
    ensures |groups.0| == |modelData| / 2 && |groups.1| == |modelData| - |modelData| / 2
    ensures groups.0.Keys !! groups.1.Keys && groups.0.Keys + groups.1.Keys == modelData.Keys
    ensures forall k :: k in groups.0 ==> groups.0[k] == modelData[k]
    ensures forall k :: k in groups.1 ==> groups.1[k] == modelData[k]
  {
    var midpoint := |shuffled| / 2;
    var leftKeys := shuffled[..midpoint];
    var rightKeys := shuffled[midpoint..];
    DistinctElementsCount(shuffled);
    CutElements(shuffled, midpoint);
    var leftGroup := map key | key in leftKeys :: modelData[key];
    var rightGroup := map key | key in rightKeys :: modelData[key];
    assert leftGroup.Keys == set k | k in leftKeys;
    assert rightGroup.Keys == set k | k in rightKeys;
    (leftGroup, rightGroup)
  }

  /** With no keys or one key nothing fails: the left pool is empty and the
      right pool is the whole table. */
  lemma SplitSmallTable(modelData: map<string, string>, shuffled: seq<string>)
    requires IsShuffleOf(shuffled, modelData.Keys)
    requires |modelData| <= 1
    ensures SplitModelsIntoGroups(modelData, shuffled).0 == map[]
    ensures SplitModelsIntoGroups(modelData, shuffled).1 == modelData
  {
    var groups := SplitModelsIntoGroups(modelData, shuffled);
    EmptyLeftPool(modelData, groups.0, groups.1);
  }

  /** Two pools with the split's sizes, keys and values, cut from a table of
      at most one key: the left one is empty and the right one is the table. */
  lemma EmptyLeftPool(modelData: map<string, string>, left: map<string, string>, right: map<string, string>)
    requires |modelData| <= 1 && |left| == |modelData| / 2
    requires left.Keys + right.Keys == modelData.Keys
    requires forall k :: k in right ==> right[k] == modelData[k]
    ensures left == map[] && right == modelData
  {
    assert left.Keys == {};
    assert right.Keys == modelData.Keys;
  }

  // ---------------------------------------------------------------------------
  // Prompt composition
  // ---------------------------------------------------------------------------

  datatype Role = System | User | Assistant

  datatype Message = Message(role: Role, content: string)

  /** The order every request uses: the system message, then the history, then the new user turn. */
  function ComposeMessages(systemContent: string, history: seq<Message>, prompt: string): (messages: seq<Message>)
    ensures |messages| == |history| + 2
    ensures messages[0] == Message(System, systemContent)
    ensures messages[1..|messages| - 1] == history
    ensures messages[|messages| - 1] == Message(User, prompt)
  {
    [Message(System, systemContent)] + history + [Message(User, prompt)]
  }

  /** The list get_llm_response_streaming hands to the chat backend: built by
      starting with the system message, extending with the history and
      appending the user message. The system content is SYSTEM_CONCISE, a
      space, then the persona's system prompt. */
  method BuildStreamingMessages(systemPrompt: string, prompt: string, chatHistory: seq<Message>)
    returns (messages: seq<Message>)
    ensures messages == ComposeMessages(SystemConcise + " " + systemPrompt, chatHistory, prompt)
  {
    var systemMessage := Message(System, SystemConcise + " " + systemPrompt);
    var userMessage := Message(User, prompt);
    messages := [systemMessage];
    messages := messages + chatHistory;
    messages := messages + [userMessage];
  }

  /** The list get_llm_response hands to the chat backend: the same shape
      with no history, but SYSTEM_CONCISE is joined to the system prompt
      without a space. */
  function ResponseMessages(systemPrompt: string, prompt: string): (messages: seq<Message>)
    ensures messages == ComposeMessages(SystemConcise + systemPrompt, [], prompt)
  {
    [Message(System, SystemConcise + systemPrompt), Message(User, prompt)]
  }

  // ---------------------------------------------------------------------------
  // Reasoning stripper
  // ---------------------------------------------------------------------------

  const ThinkOpen: string := "<think>"
  const ThinkClose: string := "</think>"

  /** remove_reasoning, i.e. `re.sub(r'<think>.*?</think>', '', s, flags=re.DOTALL)`:
      scanning from the left, a `<think>` followed somewhere by a `</think>`
      is deleted together with everything up to the FIRST such `</think>`;
      any other character is kept and the scan moves on by one. */
  function RemoveReasoning(s: string): (r: string)
    ensures |r| <= |s|
    decreases |s|
  {
    if |s| == 0 then ""
    else if IsPrefix(ThinkOpen, s) && IndexOf(s[|ThinkOpen|..], ThinkClose).Some? then
      var j := IndexOf(s[|ThinkOpen|..], ThinkClose).value;
      RemoveReasoning(s[|ThinkOpen| + j + |ThinkClose|..])
    else
      [s[0]] + RemoveReasoning(s[1..])
  }

  /** A deleted span: `<think>`, then text, then the first `</think>` after it. */
  predicate IsThinkSpan(t: string)
  {
    |t| >= |ThinkOpen| + |ThinkClose| && IsPrefix(ThinkOpen, t) &&
    IndexOf(t[|ThinkOpen|..], ThinkClose) == Some(|t| - |ThinkOpen| - |ThinkClose|)
  }

  /** One piece of the input as the scan sees it: a kept character or a deleted span. */
  datatype Piece = Kept(c: char) | Removed(span: string)

  /** The text a piece stands for in the input. */
  function PieceText(piece: Piece): string
  {
    match piece
    case Kept(c) => [c]
    case Removed(t) => t
  }

  function Concat(pieces: seq<Piece>): string
  {
    if |pieces| == 0 then "" else PieceText(pieces[0]) + Concat(pieces[1..])
  }

  function KeptText(pieces: seq<Piece>): string
  {
    if |pieces| == 0 then ""
    else (match pieces[0] case Kept(c) => [c] case Removed(_) => "") + KeptText(pieces[1..])
  }

  function RemovedLength(pieces: seq<Piece>): nat
  {
    if |pieces| == 0 then 0
    else (match pieces[0] case Kept(_) => 0 case Removed(t) => |t|) + RemovedLength(pieces[1..])
  }

  /** How the scan cuts the input into pieces: concatenated, the pieces give
      back the input, and every deleted piece is a well-formed span. */
  function Scan(s: string): (pieces: seq<Piece>)
    ensures Concat(pieces) == s
    ensures forall k :: 0 <= k < |pieces| && pieces[k].Removed? ==> IsThinkSpan(pieces[k].span)
    decreases |s|
  {
    if |s| == 0 then []
    else if IsPrefix(ThinkOpen, s) && IndexOf(s[|ThinkOpen|..], ThinkClose).Some? then
      var j := IndexOf(s[|ThinkOpen|..], ThinkClose).value;
      var n := |ThinkOpen| + j + |ThinkClose|;
      LeadingSpan(s, j);
      [Removed(s[..n])] + Scan(s[n..])
    else
      assert s == [s[0]] + s[1..];
      [Kept(s[0])] + Scan(s[1..])
  }

  /** Where the scan deletes a span, it cuts off a well-formed span. */
  lemma LeadingSpan(s: string, j: nat)
    requires IsPrefix(ThinkOpen, s) && IndexOf(s[|ThinkOpen|..], ThinkClose) == Some(j)
    ensures var n := |ThinkOpen| + j + |ThinkClose|;
      n <= |s| && IsThinkSpan(s[..n]) && s == s[..n] + s[n..]
  {
    var n := |ThinkOpen| + j + |ThinkClose|;
    var u := s[|ThinkOpen|..];
    assert OccursAt(u, ThinkClose, j);
    var t := s[..n];
    assert IsPrefix(ThinkOpen, t) by {
      assert t[..|ThinkOpen|] == s[..|ThinkOpen|];
    }
    assert t[|ThinkOpen|..] == u[..j + |ThinkClose|];
    IndexOfTake(u, ThinkClose, j + |ThinkClose|);
    assert s == t + s[n..];
  }

  /** `s` begins with a `<think>` that some later `</think>` closes: the
      pattern matches at the start of `s`. */
  predicate StartsSpan(s: string)
  {
    IsPrefix(ThinkOpen, s) && IndexOf(s[|ThinkOpen|..], ThinkClose).Some?
  }

  /** A cut of a text into pieces as `re.sub` finds its matches scanning from
      the left: every deleted piece is a well-formed span, and no kept
      character is the start of a match. */
  predicate LeftmostCut(pieces: seq<Piece>)
  {
    (forall k :: 0 <= k < |pieces| && pieces[k].Removed? ==> IsThinkSpan(pieces[k].span)) &&
    (forall k :: 0 <= k < |pieces| && pieces[k].Kept? ==> !StartsSpan(Concat(pieces[k..])))
  }

  /** A well-formed span at the front of a text is exactly the match the
      pattern finds there. */
  lemma SpanAtFront(t: string, rest: string)
    requires IsThinkSpan(t)
    ensures StartsSpan(t + rest)
    ensures |ThinkOpen| + IndexOf((t + rest)[|ThinkOpen|..], ThinkClose).value + |ThinkClose| == |t|
  {
    var u := t[|ThinkOpen|..];
    assert (t + rest)[..|ThinkOpen|] == t[..|ThinkOpen|];
    assert (t + rest)[|ThinkOpen|..] == u + rest;
    IndexOfAppend(u, rest, ThinkClose);
  }

  /** The scan never keeps a character at which the pattern matches. */
  lemma {:induction false} ScanIsLeftmostCut(s: string)
    ensures LeftmostCut(Scan(s))
    decreases |s|
  {
    if |s| > 0 {
      var pieces := Scan(s);
      if IsPrefix(ThinkOpen, s) && IndexOf(s[|ThinkOpen|..], ThinkClose).Some? {
        var n := |ThinkOpen| + IndexOf(s[|ThinkOpen|..], ThinkClose).value + |ThinkClose|;
        var rest := Scan(s[n..]);
        ScanIsLeftmostCut(s[n..]);
        assert pieces == [Removed(s[..n])] + rest;
        forall k | 0 < k < |pieces|
          ensures pieces[k..] == rest[k - 1..]
        {
        }
      } else {
        var rest := Scan(s[1..]);
        ScanIsLeftmostCut(s[1..]);
        assert pieces == [Kept(s[0])] + rest;
        assert pieces[0..] == pieces;
        forall k | 0 < k < |pieces|
          ensures pieces[k..] == rest[k - 1..]
        {
        }
      }
    }
  }

  /** The first piece of a leftmost cut is the match at the front of the
      text when there is one, and the first character otherwise. */
  lemma CutHead(pieces: seq<Piece>)
    requires LeftmostCut(pieces) && |pieces| > 0
    ensures var s := Concat(pieces);
      |s| > 0 &&
      (StartsSpan(s) ==>
         pieces[0] == Removed(s[..|ThinkOpen| + IndexOf(s[|ThinkOpen|..], ThinkClose).value + |ThinkClose|])) &&
      (!StartsSpan(s) ==> pieces[0] == Kept(s[0]))
  {
    var s := Concat(pieces);
    assert pieces[0..] == pieces;
    match pieces[0]
    case Kept(c) =>
    case Removed(t) =>
      assert s == t + Concat(pieces[1..]);
      SpanAtFront(t, Concat(pieces[1..]));
  }

  /** Dropping the first piece of a leftmost cut leaves a leftmost cut of the rest. */
  lemma CutTail(pieces: seq<Piece>)
    requires LeftmostCut(pieces) && |pieces| > 0
    ensures LeftmostCut(pieces[1..])
  {
    var tail := pieces[1..];
    forall k | 0 <= k < |tail|
      ensures tail[k] == pieces[k + 1] && tail[k..] == pieces[k + 1..]
    {
    }
  }

  /** A text has only one leftmost cut. */
  lemma {:induction false} LeftmostCutIsUnique(p: seq<Piece>, q: seq<Piece>)
    requires LeftmostCut(p) && LeftmostCut(q) && Concat(p) == Concat(q)
    ensures p == q
    decreases |p|
  {
    if |p| > 0 {
      CutHead(p);
    }
    if |q| > 0 {
      CutHead(q);
    }
    if |p| > 0 && |q| > 0 {
      var h := PieceText(p[0]);
      assert p[0] == q[0];
      assert Concat(p[1..]) == Concat(p)[|h|..];
      assert Concat(q[1..]) == Concat(q)[|h|..];
      CutTail(p);
      CutTail(q);
      LeftmostCutIsUnique(p[1..], q[1..]);
      assert p == [p[0]] + p[1..] && q == [q[0]] + q[1..];
    }
  }

  /** The scan is THE leftmost cut: any cut of `s` into well-formed deleted
      spans and kept characters that never keeps the start of a match is the
      scan's cut, so the scan deletes exactly the matches of `re.sub`. */
  lemma ScanIsTheLeftmostCut(s: string, pieces: seq<Piece>)
    requires Concat(pieces) == s && LeftmostCut(pieces)
    ensures pieces == Scan(s)
  {
    var scanned := Scan(s);
    assert Concat(scanned) == s;
    ScanIsLeftmostCut(s);
    LeftmostCutIsUnique(pieces, scanned);
  }

  /** The reply is the kept characters of the scan, and its length is the
      input's length minus the total length of the deleted spans. */
  lemma {:induction false} RemoveReasoningKeepsTheRest(s: string)
    ensures RemoveReasoning(s) == KeptText(Scan(s))
    ensures |RemoveReasoning(s)| == |s| - RemovedLength(Scan(s))
    decreases |s|
  {
    if |s| > 0 {
      if IsPrefix(ThinkOpen, s) && IndexOf(s[|ThinkOpen|..], ThinkClose).Some? {
        var j := IndexOf(s[|ThinkOpen|..], ThinkClose).value;
        var n := |ThinkOpen| + j + |ThinkClose|;
        RemoveReasoningKeepsTheRest(s[n..]);
      } else {
        RemoveReasoningKeepsTheRest(s[1..]);
      }
    }
  }

  /** Text with no `<think>` comes back unchanged. */
  lemma {:induction false} NoOpenTagUnchanged(s: string)
    requires !Contains(s, ThinkOpen)
    ensures RemoveReasoning(s) == s
    decreases |s|
  {
    if |s| > 0 {
      NotContainsTail(s, ThinkOpen);
      NoOpenTagUnchanged(s[1..]);
    }
  }

  /** Text with no `</think>` comes back unchanged: an unclosed `<think>` stays. */
  lemma {:induction false} NoCloseTagUnchanged(s: string)
    requires !Contains(s, ThinkClose)
    ensures RemoveReasoning(s) == s
    decreases |s|
  {
    if |s| > 0 {
      if |s| >= |ThinkOpen| {
        NotContainsDrop(s, ThinkClose, |ThinkOpen|);
      }
      NotContainsTail(s, ThinkClose);
      NoCloseTagUnchanged(s[1..]);
    }
  }

  /** Characters before the first `<think>` are kept as they are. */
  lemma {:induction false} KeepsTextBeforeOpenTag(a: string, t: string)
    requires forall i: nat :: i < |a| ==> !OccursAt(a + t, ThinkOpen, i)
    ensures RemoveReasoning(a + t) == a + RemoveReasoning(t)
    decreases |a|
  {
    if |a| > 0 {
      var s := a + t;
      assert !OccursAt(s, ThinkOpen, 0);
      assert !IsPrefix(ThinkOpen, s);
      assert RemoveReasoning(s) == [s[0]] + RemoveReasoning(s[1..]);
      assert s[1..] == a[1..] + t;
      forall i: nat | i < |a| - 1
        ensures !OccursAt(a[1..] + t, ThinkOpen, i)
      {
        OccursAtTail(s, ThinkOpen, i);
      }
      KeepsTextBeforeOpenTag(a[1..], t);
      assert [s[0]] + (a[1..] + RemoveReasoning(t)) == a + RemoveReasoning(t);
    } else {
      assert a + t == t;
    }
  }

  /** A `<think>` whose first following `</think>` closes `x` is deleted with
      everything between them, newlines included. */
  lemma RemovesSpanUpToFirstClose(x: string, b: string)
    requires forall i: nat :: i < |x| ==> !OccursAt(x + ThinkClose, ThinkClose, i)
    ensures RemoveReasoning(ThinkOpen + x + ThinkClose + b) == RemoveReasoning(b)
  {
    SpanShape(x, b);
  }

  /** `<think>`, `x`, the first `</think>` after it, then `b`: the scan sees
      an open tag, finds the close tag right after `x`, and resumes at `b`. */
  lemma SpanShape(x: string, b: string)
    requires forall i: nat :: i < |x| ==> !OccursAt(x + ThinkClose, ThinkClose, i)
    ensures var s := ThinkOpen + x + ThinkClose + b;
      IsPrefix(ThinkOpen, s) && IndexOf(s[|ThinkOpen|..], ThinkClose) == Some(|x|) &&
      s[|ThinkOpen| + |x| + |ThinkClose|..] == b
  {
    FirstOccurrenceAtEnd(x, ThinkClose);
    var s := ThinkOpen + x + ThinkClose + b;
    assert s[..|ThinkOpen|] == ThinkOpen;
    assert s[|ThinkOpen|..] == (x + ThinkClose) + b;
    IndexOfAppend(x + ThinkClose, b, ThinkClose);
    assert s[|ThinkOpen| + |x| + |ThinkClose|..] == b;
  }

  /** The first complete span is deleted and the text before it is kept:
      when no `<think>` starts inside `a` and the first `</think>` after the
      `<think>` is the one closing `x`, the output is `a` followed by the
      stripped rest. */
  lemma RemovesFirstSpan(a: string, x: string, b: string)
    requires forall i: nat :: i < |a| ==> !OccursAt(a + ThinkOpen, ThinkOpen, i)
    requires forall i: nat :: i < |x| ==> !OccursAt(x + ThinkClose, ThinkClose, i)
    ensures RemoveReasoning(a + ThinkOpen + x + ThinkClose + b) == a + RemoveReasoning(b)
  {
    var t := ThinkOpen + x + ThinkClose + b;
    assert a + ThinkOpen + x + ThinkClose + b == a + t;
    assert IsPrefix(ThinkOpen, t) by {
      assert t[..|ThinkOpen|] == ThinkOpen;
    }
    NoEarlierOccurrenceExtends(a, ThinkOpen, t);
    KeepsTextBeforeOpenTag(a, t);
    RemovesSpanUpToFirstClose(x, b);
  }

  // The examples below take the input as a parameter fixed by `requires`, so
  // that the verifier reasons with the general lemmas above instead of
  // unfolding the definitions on a literal.

  /** "a<think>x</think>b" becomes "ab". */
  lemma RemovesSimpleSpan(s: string)
    requires s == "a<think>x</think>b"
    ensures RemoveReasoning(s) == "ab"
  {
    SimpleSpanPieces(s);
    RemovesFirstSpan("a", "x", "b");
  }

  /** "a<think>x</think>b" is "a", a span holding "x", and "b", with no
      `<think>` starting in "a" and no `</think>` starting in "x". */
  lemma SimpleSpanPieces(s: string)
    requires s == "a<think>x</think>b"
    ensures s == "a" + ThinkOpen + "x" + ThinkClose + "b"
    ensures forall i: nat :: i < |"a"| ==> !OccursAt("a" + ThinkOpen, ThinkOpen, i)
    ensures forall i: nat :: i < |"x"| ==> !OccursAt("x" + ThinkClose, ThinkClose, i)
  {
    MismatchAt("a" + ThinkOpen, ThinkOpen, 0, 0);
    MismatchAt("x" + ThinkClose, ThinkClose, 0, 0);
  }

  /** The deleted span may run over several lines: "<think>x\ny</think>z" becomes "z". */
  lemma RemovesMultiLineSpan(s: string)
    requires s == "<think>x\ny</think>z"
    ensures RemoveReasoning(s) == "z"
  {
    var x := "x\ny";
    assert s == ThinkOpen + x + ThinkClose + "z";
    MismatchAt(x + ThinkClose, ThinkClose, 0, 0);
    MismatchAt(x + ThinkClose, ThinkClose, 1, 0);
    MismatchAt(x + ThinkClose, ThinkClose, 2, 0);
    RemovesSpanUpToFirstClose(x, "z");
  }

  /** Non-greedy: the span ends at the first `</think>`, so
      "<think>a</think>b</think>" becomes "b</think>". */
  lemma StopsAtFirstClose(s: string, rest: string)
    requires s == "<think>a</think>b</think>" && rest == "b</think>"
    ensures RemoveReasoning(s) == rest
  {
    ShortSpanDeleted(s, rest);
    StrayCloseTagKept(rest);
  }

  /** "<think>a</think>" is deleted from the front of "<think>a</think>b</think>". */
  lemma ShortSpanDeleted(s: string, rest: string)
    requires s == "<think>a</think>b</think>" && rest == "b</think>"
    ensures RemoveReasoning(s) == RemoveReasoning(rest)
  {
    assert s == ThinkOpen + "a" + ThinkClose + rest;
    MismatchAt("a" + ThinkClose, ThinkClose, 0, 0);
    RemovesSpanUpToFirstClose("a", rest);
  }

  /** "b</think>" holds no `<think>` and is kept as it is. */
  lemma StrayCloseTagKept(rest: string)
    requires rest == "b</think>"
    ensures RemoveReasoning(rest) == rest
  {
    StrayCloseTagHasNoOpenTag(rest);
    NoOccurrenceNotContains(rest, ThinkOpen);
    NoOpenTagUnchanged(rest);
  }

  lemma StrayCloseTagHasNoOpenTag(rest: string)
    requires rest == "b</think>"
    ensures forall i: nat :: !OccursAt(rest, ThinkOpen, i)
  {
    forall i: nat
      ensures !OccursAt(rest, ThinkOpen, i)
    {
      if i == 0 {
        MismatchAt(rest, ThinkOpen, 0, 0);
      } else if i == 1 {
        MismatchAt(rest, ThinkOpen, 1, 1);
      } else if i == 2 {
        MismatchAt(rest, ThinkOpen, 2, 0);
      }
    }
  }

  /** An unclosed `<think>` is left in place: "a<think>b" comes back unchanged. */
  lemma KeepsUnclosedOpenTag(s: string)
    requires s == "a<think>b"
    ensures RemoveReasoning(s) == s
  {
    MismatchAt(s, ThinkClose, 0, 0);
    MismatchAt(s, ThinkClose, 1, 1);
    NoCloseTagUnchanged(s);
  }

  /** The first pass over "<thi<think>x</think>nk>y</think>" keeps "<thi",
      deletes the span in the middle and goes on with "nk>y</think>". */
  lemma FirstPassDeletesInnerSpan(s: string, rest: string)
    requires s == "<thi<think>x</think>nk>y</think>" && rest == "nk>y</think>"
    ensures RemoveReasoning(s) == "<thi" + RemoveReasoning(rest)
  {
    InnerSpanPieces(s, rest);
    RemovesFirstSpan("<thi", "x", rest);
  }

  /** "<thi<think>x</think>nk>y</think>" is "<thi", a span holding "x", and
      `rest`, with no `<think>` starting in "<thi" and no `</think>` in "x". */
  lemma InnerSpanPieces(s: string, rest: string)
    requires s == "<thi<think>x</think>nk>y</think>" && rest == "nk>y</think>"
    ensures s == "<thi" + ThinkOpen + "x" + ThinkClose + rest
    ensures forall i: nat :: i < |"<thi"| ==> !OccursAt("<thi" + ThinkOpen, ThinkOpen, i)
    ensures forall i: nat :: i < |"x"| ==> !OccursAt("x" + ThinkClose, ThinkClose, i)
  {
    InnerSpanSplit(s, rest);
    var a := "<thi" + ThinkOpen;
    forall i: nat | i < |"<thi"|
      ensures !OccursAt(a, ThinkOpen, i)
    {
      if i == 0 {
        MismatchAt(a, ThinkOpen, 0, 4);
      } else {
        MismatchAt(a, ThinkOpen, i, 0);
      }
    }
    MismatchAt("x" + ThinkClose, ThinkClose, 0, 0);
  }

  lemma InnerSpanSplit(s: string, rest: string)
    requires s == "<thi<think>x</think>nk>y</think>" && rest == "nk>y</think>"
    ensures s == "<thi" + ThinkOpen + "x" + ThinkClose + rest
  {
    assert s == "<thi<think>x</think>" + rest;
    assert "<thi<think>x</think>" == "<thi<think>x" + ThinkClose;
    assert "<thi<think>x" == "<thi" + ThinkOpen + "x";
  }

  /** "nk>y</think>" holds no `<think>` and is kept as it is. */
  lemma TailWithoutOpenTagKept(rest: string)
    requires rest == "nk>y</think>"
    ensures RemoveReasoning(rest) == rest
  {
    TailHasNoOpenTag(rest);
    NoOccurrenceNotContains(rest, ThinkOpen);
    NoOpenTagUnchanged(rest);
  }

  lemma TailHasNoOpenTag(rest: string)
    requires rest == "nk>y</think>"
    ensures forall i: nat :: !OccursAt(rest, ThinkOpen, i)
  {
    forall i: nat
      ensures !OccursAt(rest, ThinkOpen, i)
    {
      if i == 4 {
        MismatchAt(rest, ThinkOpen, 4, 1);
      } else if i <= 5 {
        MismatchAt(rest, ThinkOpen, i, 0);
      }
    }
  }

  /** "<think>y</think>" is one whole span and disappears. */
  lemma WholeSpanDeleted(s: string)
    requires s == "<think>y</think>"
    ensures RemoveReasoning(s) == ""
  {
    assert s == ThinkOpen + "y" + ThinkClose + "";
    MismatchAt("y" + ThinkClose, ThinkClose, 0, 0);
    RemovesSpanUpToFirstClose("y", "");
  }

  lemma KeptPiecesJoin(rest: string, once: string)
    requires rest == "nk>y</think>" && once == "<think>y</think>"
    ensures "<thi" + rest == once
  {
  }

  /** One pass is not always enough: deleting an inner span can join the
      pieces of a new `<think>` around it, which a second pass then deletes.
      `s` = "<thi<think>x</think>nk>y</think>" becomes `once` =
      "<think>y</think>", which becomes "". */
  lemma NotIdempotent(s: string, rest: string, once: string)
    requires s == "<thi<think>x</think>nk>y</think>" && rest == "nk>y</think>" && once == "<think>y</think>"
    ensures RemoveReasoning(s) == once
    ensures RemoveReasoning(once) == ""
  {
    FirstPassDeletesInnerSpan(s, rest);
    TailWithoutOpenTagKept(rest);
    KeptPiecesJoin(rest, once);
    WholeSpanDeleted(once);
  }
}
