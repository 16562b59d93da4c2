/** The Streamlit page's session state, the callback that starts a talk, the
    fixed-length turn loop between the two selected models, and the short
    names shown above the two input boxes (app.py). */
module App {
  import opened Text
  import opened OllamaTools

  /** Number of backend calls one talk makes. */
  const MaxTurns: nat := 4

  /** Shown instead of a model name when no model is selected (U+1F917, the hugging face emoji). */
  const NoModelAlias: string := "\U{1F917}"

  /** The short name shown in "Ask <alias>:": the model name up to its first
      "-", or the emoji when no model is selected. */
  function DisplayAlias(model: Option<string>): (alias: string)
    ensures model.None? ==> alias == NoModelAlias
    ensures model.Some? ==> IsPrefix(alias, model.value) && '-' !in alias
    ensures model.Some? && |alias| < |model.value| ==> model.value[|alias|] == '-'
  {
    match model
    case None => NoModelAlias
    case Some(name) => BeforeFirst(name, '-')
  }

  /** Python's `model or fallback` for a selection that may be unset: a set,
      non-empty selection wins; None and "" are falsy and give the fallback. */
  function ModelOr(model: Option<string>, fallback: string): (name: string)
    requires fallback != ""
    ensures name != ""
    ensures model.Some? && model.value != "" ==> name == model.value
    ensures model.None? || model.value == "" ==> name == fallback
  {
    if model.Some? && model.value != "" then model.value else fallback
  }

  /** What begin_conversation records: the prompt that opens the talk, the
      model it was asked of, and whether a talk is running. */
  datatype Start = Start(initialPrompt: string, modelAsked: string, talkStarted: bool)

  /** The outcome of begin_conversation for the two inputs and the two selections. */
  function StartFrom(inputA: string, inputB: string, leftModel: Option<string>, rightModel: Option<string>): (start: Start)
    ensures start.talkStarted <==> start.initialPrompt != ""
    ensures start.talkStarted <==> start.modelAsked != ""
  {
    var strippedA := Strip(inputA);
    var strippedB := Strip(inputB);
    if strippedA != "" && strippedB == "" then Start(strippedA, ModelOr(leftModel, "model A"), true)
    else if strippedB != "" && strippedA == "" then Start(strippedB, ModelOr(rightModel, "model B"), true)
    else Start("", "", false)
  }

  /** Exactly one non-blank input starts a talk with that input, stripped,
      asked of that side's model or its stand-in; two blank inputs, or two
      non-blank ones, reset the talk. Whitespace-only input counts as blank. */
  lemma StartCases(inputA: string, inputB: string, leftModel: Option<string>, rightModel: Option<string>)
    ensures !IsBlank(inputA) && IsBlank(inputB) ==>
      StartFrom(inputA, inputB, leftModel, rightModel) == Start(Strip(inputA), ModelOr(leftModel, "model A"), true)
    ensures IsBlank(inputA) && !IsBlank(inputB) ==>
      StartFrom(inputA, inputB, leftModel, rightModel) == Start(Strip(inputB), ModelOr(rightModel, "model B"), true)
    ensures IsBlank(inputA) == IsBlank(inputB) ==>
      StartFrom(inputA, inputB, leftModel, rightModel) == Start("", "", false)
  {
    StripEmptyIffBlank(inputA);
    StripEmptyIffBlank(inputB);
  }

  /** The two input boxes, one per side of the page. */
  datatype Side = Left | Right

  /** One backend call of the turn loop: who was asked, what, and the reply
      after its reasoning was stripped (the text written to the chat area). */
  datatype Turn = Turn(speaker: Option<string>, prompt: string, reply: string)

  /** The speaker after `current`: the right model if `current` is the left
      one, otherwise the left one. */
  function NextSpeaker(current: Option<string>, left: Option<string>, right: Option<string>): (speaker: Option<string>)
    ensures speaker == left || speaker == right
  {
    if current == left then right else left
  }

  /** The speaker of turn `k` when turn 0 goes to `first`; from the second
      turn on it is always one of the two selections. */
  function SpeakerAt(first: Option<string>, left: Option<string>, right: Option<string>, k: nat): (speaker: Option<string>)
    ensures k >= 1 ==> speaker == left || speaker == right
  {
    if k == 0 then first else NextSpeaker(SpeakerAt(first, left, right, k - 1), left, right)
  }

  /** Starting one turn later is starting from the next speaker. */
  lemma {:induction false} SpeakerAtShift(first: Option<string>, left: Option<string>, right: Option<string>, k: nat)
    ensures SpeakerAt(NextSpeaker(first, left, right), left, right, k) == SpeakerAt(first, left, right, k + 1)
  {
    if k > 0 {
      SpeakerAtShift(first, left, right, k - 1);
    }
  }

  /** `n` turns of the talk loop from `speaker` and `prompt`: each turn asks
      the speaker the prompt with an empty system prompt, strips the
      reasoning from the reply, and hands the reply to the next speaker. */
  function Conversation(backend: (Option<string>, string, string) -> string, speaker: Option<string>, prompt: string,
                        left: Option<string>, right: Option<string>, n: nat): (turns: seq<Turn>)
    ensures |turns| == n
    decreases n
  {
    if n == 0 then []
    else
      var reply := RemoveReasoning(backend(speaker, "", prompt));
      [Turn(speaker, prompt, reply)] + Conversation(backend, NextSpeaker(speaker, left, right), reply, left, right, n - 1)
  }

  /** Turn `k` of a talk is spoken by SpeakerAt(speaker, k). */
  lemma {:induction false} ConversationSpeakers(backend: (Option<string>, string, string) -> string, speaker: Option<string>,
                                                prompt: string, left: Option<string>, right: Option<string>, n: nat)
    ensures forall k :: 0 <= k < n ==>
      Conversation(backend, speaker, prompt, left, right, n)[k].speaker == SpeakerAt(speaker, left, right, k)
    decreases n
  {
    if n > 0 {
      var turns := Conversation(backend, speaker, prompt, left, right, n);
      var next := NextSpeaker(speaker, left, right);
      var reply := RemoveReasoning(backend(speaker, "", prompt));
      var rest := Conversation(backend, next, reply, left, right, n - 1);
      ConversationSpeakers(backend, next, reply, left, right, n - 1);
      forall k | 0 < k < n
        ensures turns[k].speaker == SpeakerAt(speaker, left, right, k)
      {
        assert turns[k] == rest[k - 1];
        SpeakerAtShift(speaker, left, right, k - 1);
      }
    }
  }

  /** The first turn gets the opening prompt and every later turn gets the
      previous turn's reply. */
  lemma {:induction false} ConversationPrompts(backend: (Option<string>, string, string) -> string, speaker: Option<string>,
                                               prompt: string, left: Option<string>, right: Option<string>, n: nat)
    ensures n > 0 ==> Conversation(backend, speaker, prompt, left, right, n)[0].prompt == prompt
    ensures forall k :: 0 <= k < n - 1 ==>
      Conversation(backend, speaker, prompt, left, right, n)[k + 1].prompt == Conversation(backend, speaker, prompt, left, right, n)[k].reply
    decreases n
  {
    if n > 0 {
      var turns := Conversation(backend, speaker, prompt, left, right, n);
      var next := NextSpeaker(speaker, left, right);
      var reply := RemoveReasoning(backend(speaker, "", prompt));
      var rest := Conversation(backend, next, reply, left, right, n - 1);
      ConversationPrompts(backend, next, reply, left, right, n - 1);
      forall k | 0 <= k < n - 1
        ensures turns[k + 1].prompt == turns[k].reply
      {
        assert turns[k + 1] == rest[k];
        if k > 0 {
          assert turns[k] == rest[k - 1];
        }
      }
    }
  }

  /** Every reply in a talk is the backend's answer to that turn's speaker
      and prompt, with an empty system prompt, stripped of its reasoning. */
  lemma {:induction false} ConversationReplies(backend: (Option<string>, string, string) -> string, speaker: Option<string>,
                                               prompt: string, left: Option<string>, right: Option<string>, n: nat)
    ensures forall t :: t in Conversation(backend, speaker, prompt, left, right, n) ==>
      t.reply == RemoveReasoning(backend(t.speaker, "", t.prompt))
    decreases n
  {
    if n > 0 {
      var next := NextSpeaker(speaker, left, right);
      var reply := RemoveReasoning(backend(speaker, "", prompt));
      ConversationReplies(backend, next, reply, left, right, n - 1);
    }
  }

  /** With two different models and a first speaker that is one of them,
      the speakers alternate: the first one on even turns, the other on odd turns. */
  lemma {:induction false} SpeakersAlternate(first: Option<string>, left: Option<string>, right: Option<string>, k: nat)
    requires left != right && (first == left || first == right)
    ensures SpeakerAt(first, left, right, k) == if k % 2 == 0 then first else NextSpeaker(first, left, right)
  {
    if k > 0 {
      SpeakersAlternate(first, left, right, k - 1);
    }
  }

  /** Asked on the left with two different models, the four turns go left,
      right, left, right. */
  lemma LeftAskedFourTurns(left: Option<string>, right: Option<string>)
    requires left != right
    ensures seq(MaxTurns, k requires 0 <= k => SpeakerAt(left, left, right, k)) == [left, right, left, right]
  {
    SpeakersAlternate(left, left, right, 1);
    SpeakersAlternate(left, left, right, 2);
    SpeakersAlternate(left, left, right, 3);
  }

  /** When the first speaker is not the left selection (the "model A" or
      "model B" stand-in, or the right model), turn 1 goes to the left
      selection, even when that is unset. */
  lemma SecondTurnAfterNonLeftIsLeft(first: Option<string>, left: Option<string>, right: Option<string>)
    requires first != left
    ensures SpeakerAt(first, left, right, 1) == left
  {
  }

  /** The page's session state: the fields `main` initialises and
      `begin_conversation` updates. */
  class SessionState {
    var modelNames: seq<string>
    var inputA: string
    var inputB: string
    var talkStarted: bool
    var initialPrompt: string
    var modelAsked: string
    var leftModel: Option<string>
    var rightModel: Option<string>

    /** A talk is running exactly when a prompt and the model asked are
        recorded, and each selection is one of the listed models. */
    ghost predicate Valid()
      reads this
    {
      TalkConsistent() && SelectionsListed()
    }

    ghost predicate TalkConsistent()
      reads this`talkStarted, this`initialPrompt, this`modelAsked
    {
      (talkStarted <==> initialPrompt != "") && (talkStarted <==> modelAsked != "")
    }

    ghost predicate SelectionsListed()
      reads this`modelNames, this`leftModel, this`rightModel
    {
      (leftModel.Some? ==> leftModel.value in modelNames) &&
      (rightModel.Some? ==> rightModel.value in modelNames)
    }

    /** The first run of `main`: empty inputs, no talk, and one model picked
        at random for each side (the picks are the indices `random.choice`
        returned; it needs a non-empty list). */
    constructor (modelNames: seq<string>, leftPick: nat, rightPick: nat)
      requires leftPick < |modelNames| && rightPick < |modelNames|
      ensures Valid()
      ensures this.modelNames == modelNames
      ensures inputA == "" && inputB == "" && !talkStarted && initialPrompt == "" && modelAsked == ""
      ensures leftModel == Some(modelNames[leftPick]) && rightModel == Some(modelNames[rightPick])
    {
      this.modelNames := modelNames;
      inputA := "";
      inputB := "";
      talkStarted := false;
      initialPrompt := "";
      modelAsked := "";
      leftModel := Some(modelNames[leftPick]);
      rightModel := Some(modelNames[rightPick]);
    }

    /** A segmented control sets its side's selection to a listed model or
        clears it. */
    method SelectModel(side: Side, model: Option<string>)
      requires Valid()
      requires model.Some? ==> model.value in modelNames
      modifies this`leftModel, this`rightModel
      ensures Valid()
      ensures side == Left ==> leftModel == model && rightModel == old(rightModel)
      ensures side == Right ==> rightModel == model && leftModel == old(leftModel)
    {
      if side == Left {
        leftModel := model;
      } else {
        rightModel := model;
      }
    }

    /** A text box stores what was typed under its key. */
    method TypeInput(side: Side, text: string)
      modifies this`inputA, this`inputB
      ensures side == Left ==> inputA == text && inputB == old(inputB)
      ensures side == Right ==> inputB == text && inputA == old(inputA)
    {
      if side == Left {
        inputA := text;
      } else {
        inputB := text;
      }
    }

    /** begin_conversation: records the outcome StartFrom gives for the
        inputs and selections (see StartCases), and clears both inputs. */
    method BeginConversation()
      requires Valid()
      modifies this`initialPrompt, this`modelAsked, this`talkStarted, this`inputA, this`inputB
      ensures Valid()
      ensures Start(initialPrompt, modelAsked, talkStarted) == StartFrom(old(inputA), old(inputB), leftModel, rightModel)
      ensures inputA == "" && inputB == ""
    {
      var strippedA := Strip(inputA);
      var strippedB := Strip(inputB);
      var modelA := ModelOr(leftModel, "model A");
      var modelB := ModelOr(rightModel, "model B");

      if strippedA != "" && strippedB == "" {
        initialPrompt := strippedA;
        modelAsked := modelA;
        talkStarted := true;
      } else if strippedB != "" && strippedA == "" {
        initialPrompt := strippedB;
        modelAsked := modelB;
        talkStarted := true;
      } else {
        initialPrompt := "";
        modelAsked := "";
        talkStarted := false;
      }

      inputA := "";
      inputB := "";
    }

    /** The turn loop of `main`: no calls when no talk is running, otherwise
        the MaxTurns turns of Conversation that start with the model asked
        and the initial prompt. */
    method RunConversation(backend: (Option<string>, string, string) -> string) returns (turns: seq<Turn>)
      ensures !talkStarted ==> turns == []
      ensures talkStarted ==> turns == Conversation(backend, Some(modelAsked), initialPrompt, leftModel, rightModel, MaxTurns)
    {
      turns := [];
      if talkStarted {
        var currentModel := Some(modelAsked);
        var currentPrompt := initialPrompt;
        var currentSystemPrompt := "";

        for turn := 0 to MaxTurns
          invariant turns + Conversation(backend, currentModel, currentPrompt, leftModel, rightModel, MaxTurns - turn)
                 == Conversation(backend, Some(modelAsked), initialPrompt, leftModel, rightModel, MaxTurns)
        {
          var modelReply := backend(currentModel, currentSystemPrompt, currentPrompt);
          modelReply := RemoveReasoning(modelReply);
          ghost var rest := Conversation(backend, NextSpeaker(currentModel, leftModel, rightModel), modelReply, leftModel, rightModel, MaxTurns - turn - 1);
          assert turns + [Turn(currentModel, currentPrompt, modelReply)] + rest == turns + ([Turn(currentModel, currentPrompt, modelReply)] + rest);
          turns := turns + [Turn(currentModel, currentPrompt, modelReply)];
          currentPrompt := modelReply;
          currentModel := if currentModel == leftModel then rightModel else leftModel;
        }
      }
    }
  }
}
