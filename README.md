# Talking Heads: a Dafny model

Talking Heads is a Streamlit page on which two locally served Ollama models talk to each other. The user picks a model for each side and asks one of them a question. The page then passes the replies back and forth for a fixed number of turns, each reply stripped of its `<think>…</think>` reasoning.

This project models the logic under that page and proves properties of it:

- `text.dfy` (module `Text`): the Python string operations the code relies on, stated over `seq<char>`. These are substring search (`in`), `str.strip()` with Python's whitespace set, and `split("-")[0]`.
- `ollama_tools.dfy` (module `OllamaTools`) covers three parts:
  - the model catalog: the alias chain of `assign_model_aliases` and the two-pool split of `split_models_into_groups`;
  - the message lists handed to the chat backend;
  - the `<think>` stripper `remove_reasoning`.
- `embedded_styles.dfy` (module `EmbeddedStyles`): the width and height estimates for a chat bubble.
- `app.dfy` (module `App`) covers the page itself:
  - the session state as a class;
  - the `begin_conversation` callback as a method on it;
  - the four-turn loop of `main` as a method with loop invariants, run against an abstract backend;
  - the short model name shown above each input box.

How the model is built:

- `assign_model_aliases` is a method that runs the source's if/elif chain. It is proved equal to `AliasTable`, a fold of an ordered rule table over the names. The facts the catalog promises are proved about `AliasTable`: the key and value shape, last write wins, and unmatched names dropped.
- `remove_reasoning` is a recursive left-to-right scan. `Scan` cuts the input into kept characters and deleted spans. This gives the length law and the behaviour on each kind of input.
- `begin_conversation` is a method on the session state that is proved to store the outcome of the function `StartFrom`. The cases are proved about `StartFrom`.
- The turn loop is a method whose result is proved equal to the function `Conversation`. The speaker of each turn, the prompt it gets and the reply it gives are proved about `Conversation`. The speaker rule is the function `SpeakerAt`, and lemmas about it give the left/right alternation.

## Model

| member | source | states |
|---|---|---|
| Text.IndexOf | ollama_tools.py:33-43 | Python's `sub in s`: the index of the first occurrence of a substring, with no occurrence before it, or none when it occurs nowhere |
| Text.Contains | ollama_tools.py:33-43 | Python's `sub in s` is true exactly when the substring occurs at some index of the text |
| Text.IsWhitespace | app.py:17-18 | the characters `str.strip()` removes: exactly those `str.isspace()` accepts (space, tab to carriage return, U+001C to U+001F, U+0085, U+00A0, U+1680, U+2000 to U+200A, U+2028, U+2029, U+202F, U+205F, U+3000) |
| Text.TrimLeft | app.py:17-18 | `lstrip` drops leading whitespace one character at a time; its properties are in TrimLeftSplits |
| Text.TrimRight | app.py:17-18 | `rstrip` drops trailing whitespace one character at a time; its properties are in TrimRightSplits |
| Text.Strip | app.py:17-18 | `strip` is `rstrip` after `lstrip`; StripEmptyIffBlank gives when the result is empty |
| Text.TrimLeftSplits | app.py:17-18 | `lstrip`: the result is a suffix of the input, what was removed is all whitespace, and the result does not start with whitespace |
| Text.TrimRightSplits | app.py:17-18 | `rstrip`: the result is a prefix of the input, what was removed is all whitespace, and the result does not end with whitespace |
| Text.StripEmptyIffBlank | app.py:17-18 | a stripped input is empty exactly when the input is empty or whitespace only |
| Text.BeforeFirst | app.py:77 | `split(sep)[0]`: a prefix of the text holding no separator, followed in the text by the separator unless it is the whole text |
| OllamaTools.FirstMatch | ollama_tools.py:33-44 | the first rule whose pattern occurs in the name, with no earlier rule matching; none when no rule matches |
| OllamaTools.RuleAlias | ollama_tools.py:33-44 | the alias of a name is one of the six display aliases, and there is none exactly when no rule's pattern occurs in the name |
| OllamaTools.RuleAliasIsChain | ollama_tools.py:33-44 | the if/elif chain (phi, qwen, gemma, uncensored, llama without uncensored, mistral) picks the same alias as the ordered rule table |
| OllamaTools.UncensoredBeatsLlama | ollama_tools.py:39-42 | a name containing "uncensored" is never "Llama 2", and without phi/qwen/gemma it is "Unhinged llama" |
| OllamaTools.AssignModelAliases | ollama_tools.py:30-45 | the loop over the names with the if/elif chain builds exactly the alias table of the whole list |
| OllamaTools.TableOf | ollama_tools.py:31-45 | for any key function, every stored value is one of the input names and maps to the key it is stored under |
| OllamaTools.AliasTable | ollama_tools.py:30-45 | every key of the alias table is one of the six aliases and holds an input name that receives that alias |
| OllamaTools.TableEntryFromName | ollama_tools.py:32-44 | for any alias rule, the alias table included: an alias is present only if some input name maps to it, and it holds such a name |
| OllamaTools.TableLastWriteWins | ollama_tools.py:32-44 | for any alias rule, the alias table included: when several names map to one alias, the last of them is the stored value |
| OllamaTools.UnmatchedNameDropped | ollama_tools.py:32-45 | a name that matches no rule is not among the values |
| OllamaTools.SplitModelsIntoGroups | ollama_tools.py:47-55 | the left pool holds exactly the keys of the first floor(n/2) shuffled entries and the right pool the rest; so they have floor(n/2) and n - floor(n/2) keys, are disjoint, together hold every key, and map each key to its original value |
| OllamaTools.SplitSmallTable | ollama_tools.py:50-55 | with no key or one key the left pool is empty and the right pool is the whole table |
| OllamaTools.ComposeMessages | ollama_tools.py:64-68 | the message list has length history + 2: the system message first, the history unchanged and in order, then the user message last |
| OllamaTools.BuildStreamingMessages | ollama_tools.py:62-68 | start, extend and append build that list with system content SYSTEM_CONCISE + " " + the system prompt |
| OllamaTools.ResponseMessages | ollama_tools.py:57-58 | the non-streaming request is the same shape with no history, and its system content has no space |
| OllamaTools.RemoveReasoning | ollama_tools.py:72-73 | the stripped reply is never longer than the raw reply |
| OllamaTools.Scan | ollama_tools.py:72-73 | the input cuts into kept characters and deleted spans that rebuild it exactly; each deleted span is `<think>`, text, and the first `</think>` after it |
| OllamaTools.ScanIsLeftmostCut | ollama_tools.py:73 | no character the scan keeps starts a match: what follows it never begins with `<think>` with a `</think>` somewhere after |
| OllamaTools.LeftmostCutIsUnique | ollama_tools.py:73 | a text has only one cut into kept characters and well-formed spans in which no kept character starts a match |
| OllamaTools.ScanIsTheLeftmostCut | ollama_tools.py:73 | every such cut of the text is the scan's: the scan deletes exactly the leftmost non-overlapping matches of `<think>.*?</think>` |
| OllamaTools.RemoveReasoningKeepsTheRest | ollama_tools.py:72-73 | the output is the kept characters of that cut, and its length is the input length minus the total length of the deleted spans |
| OllamaTools.NoOpenTagUnchanged | ollama_tools.py:72-73 | text without `<think>` comes back unchanged |
| OllamaTools.NoCloseTagUnchanged | ollama_tools.py:72-73 | text without `</think>` comes back unchanged, so an unclosed `<think>` stays |
| OllamaTools.KeepsTextBeforeOpenTag | ollama_tools.py:72-73 | text before the first `<think>` is kept as it is |
| OllamaTools.RemovesSpanUpToFirstClose | ollama_tools.py:72-73 | a `<think>` span ending at the first `</think>` is deleted with all it holds, newlines included |
| OllamaTools.RemovesFirstSpan | ollama_tools.py:72-73 | the text before the first span is kept, the span is deleted, and the scan goes on with the rest |
| OllamaTools.RemovesSimpleSpan | ollama_tools.py:72-73 | "a<think>x</think>b" becomes "ab" |
| OllamaTools.RemovesMultiLineSpan | ollama_tools.py:72-73 | "<think>x\ny</think>z" becomes "z": the span may cross lines |
| OllamaTools.StopsAtFirstClose | ollama_tools.py:72-73 | non-greedy: "<think>a</think>b</think>" becomes "b</think>" |
| OllamaTools.KeepsUnclosedOpenTag | ollama_tools.py:72-73 | "a<think>b" comes back unchanged |
| OllamaTools.NotIdempotent | ollama_tools.py:72-73 | one pass can leave a new span behind: "<thi<think>x</think>nk>y</think>" becomes "<think>y</think>", which a second pass deletes |
| EmbeddedStyles.LineHeightIsWhole | embedded_styles.py:4-9 | the line height 16 * 1.5 is exactly 24 px, the character width is 9.6 px and the widest line is 560 px |
| EmbeddedStyles.EstimateContentWidth | embedded_styles.py:13-15 | the width is between 0 and 560, never more than 9.6 px per character, and is either the cap or exactly 9.6 px per character |
| EmbeddedStyles.WidthUncappedIffShort | embedded_styles.py:14-15 | the width is exactly 9.6 px per character if and only if the text has at most 58 characters |
| EmbeddedStyles.WidthMonotone | embedded_styles.py:13-15 | a longer text never gets a narrower bubble |
| EmbeddedStyles.TotalLines | embedded_styles.py:18 | the line count is the fewest lines of 69 characters that hold the text (the ceiling of length / 69) |
| EmbeddedStyles.LineCountOfShortText | embedded_styles.py:10-18 | empty text has 0 lines; 1 to 69 characters make one line |
| EmbeddedStyles.HeightForLines | embedded_styles.py:19-24 | the height for a line count is never below 32 px |
| EmbeddedStyles.EstimateContentHeight | embedded_styles.py:17-24 | a bubble is never lower than 32 px |
| EmbeddedStyles.HeightByLineCount | embedded_styles.py:19-24 | up to 3 lines the height is max(24 * lines, 32); beyond 3 lines it is 14 * lines + 30 |
| EmbeddedStyles.ShortTextMinimumHeight | embedded_styles.py:18-24 | empty or one-line text gets exactly 32 px |
| EmbeddedStyles.HeightForLinesMonotone | embedded_styles.py:19-24 | more lines never give a lower bubble |
| EmbeddedStyles.HeightMonotone | embedded_styles.py:17-24 | a longer text never gets a lower bubble |
| App.DisplayAlias | app.py:74-77 | no selection shows the hugging-face emoji; otherwise the model name up to its first "-" |
| App.ModelOr | app.py:19-20 | `model or fallback`: a set, non-empty selection is returned; an unset or empty one gives the fallback; the result is never empty |
| App.StartFrom | app.py:15-33 | the outcome of the callback: a talk is running exactly when there is an initial prompt, and exactly when there is a model asked |
| App.StartCases | app.py:17-33 | exactly one non-blank input starts a talk with that input stripped, asked of that side's model or its stand-in; two blank or two non-blank inputs reset the talk; whitespace-only input counts as blank |
| App.NextSpeaker | app.py:129 | the next speaker is always the left or the right selection |
| App.SpeakerAt | app.py:113-129 | from the second turn on, the speaker is the left or the right selection |
| App.SpeakerAtShift | app.py:129 | the speaker of turn k + 1 is the speaker of turn k in a talk that starts one turn later |
| App.Conversation | app.py:113-129 | a talk of n turns has exactly n turns |
| App.ConversationSpeakers | app.py:118-129 | turn k of a talk is spoken by the k-th speaker of the alternation rule |
| App.ConversationPrompts | app.py:114-126 | the first turn gets the opening prompt and every later turn gets the previous turn's stripped reply |
| App.ConversationReplies | app.py:115-121 | every reply is the backend's answer to that turn's speaker and prompt, with an empty system prompt, stripped of its reasoning |
| App.SpeakersAlternate | app.py:129 | with two different models and a first speaker among them, the first speaker talks on even turns and the other on odd turns |
| App.LeftAskedFourTurns | app.py:116-129 | asked on the left with two different models, the four turns go left, right, left, right |
| App.SecondTurnAfterNonLeftIsLeft | app.py:113-129 | when the first speaker is not the left selection (e.g. the "model A" stand-in), turn 2 goes to the left selection, even an unset one |
| App.SessionState.constructor | app.py:52-67 | the first run starts with empty inputs, no talk, and a randomly picked listed model on each side |
| App.SessionState.SelectModel | app.py:101-105 | a segmented control sets or clears its own side's selection only |
| App.SessionState.TypeInput | app.py:79-89 | a text box stores what was typed under its own key only |
| App.SessionState.BeginConversation | app.py:15-37 | the branching callback stores the outcome StartFrom gives for the inputs and selections, clears both inputs, and keeps the session invariant (a talk runs exactly when it has a prompt and a model; selections are listed models) |
| App.SessionState.RunConversation | app.py:110-129 | no talk, no calls; otherwise the loop produces exactly the 4-turn Conversation from the model asked and the initial prompt, so each call is described by the three Conversation lemmas |

## Left out

- Streamlit rendering and widget wiring are not modelled: `load_css`, the columns, `st.write`, the blur script, and the dump of the session state. Also left out is the page's rerun-on-every-interaction behaviour, under which the running talk is replayed on each rerun.
- `render_model_response` and `components.html` only fill an HTML/CSS template with the two estimates, which are modelled.
- `start_ollama`/`stop_ollama` (in `ollama_tools.py` and `ollama_chat.py`) start and stop a process. `get_models` fetches the model list over HTTP. `time.sleep` waits. All of these are I/O.
- The `ollama.chat` calls are foreign calls. The message lists they receive are modelled. The reply of the call the loop makes is the parameter `backend`, and the streamed reply is not modelled.
- `random.shuffle` and `random.choice` are randomness. The shuffled key list and the two picked indices are parameters. `random.choice` fails on an empty list, so the constructor requires a non-empty one. The in-place shuffle of `all_keys` is not modelled; its result enters as a duplicate-free listing of the keys.
- The width uses `real` and so does not model binary floating-point rounding of 9.6. The height is exactly an integer, because 16 * 1.5 is 24.
- `fortesting.py` only prints a literal message list. `ollama_chat.py` holds only its own copies of `start_ollama`/`stop_ollama`, covered above. `DEFAULT_SYSTEM_PROMPT_LEFT`/`RIGHT` are never used by the modelled code.
- `get_llm_response_streaming` prints the chat history to the console before composing the messages (ollama_tools.py:63). The print is output only and is not modelled.
- The backend is a function of the speaker, the system prompt and the prompt. The model therefore treats it as deterministic: the same speaker asked the same prompt gives the same reply, which a served language model need not do. The lemmas about a talk hold for any such function.
- App.SessionState.RunConversation passes the prompt to the backend positionally. The call at app.py:120 passes it as `message=`, which `get_llm_response(model, system_prompt, prompt)` does not accept, so the call as written raises a `TypeError` on the first turn. The model shows what the loop does once that call succeeds.
- OllamaTools.RemoveReasoning is defined as the left-to-right scan that `re.sub` with a non-greedy `.*?` and `DOTALL` performs. Its equality with Python's regular-expression engine is not proved.
- The comment at embedded_styles.py:11 describes a reduction from 6 lines with `total_lines - 5`. The code reduces from 4 lines with `total_lines - 3`, and the code is what is modelled.
