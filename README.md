# Safety checks of a natural-language-to-SQL assistant, in Dafny

The application turns a natural-language request into SQL through a local
language model and runs the SQL against a database. Three pure string
routines decide what gets through. This project models them as Dafny
functions and proves what they do.

- **The SQL safety gate.** `verifica_comando_perigoso` in models.py is the
  gate. It reads the first whitespace-separated word of the statement. It
  blocks a `DELETE`, `UPDATE` or `DROP` that never mentions `WHERE`. It lets
  such a command through with a caution when `WHERE` appears anywhere. Every
  other statement passes with no annotation. This is module `SafetyGate`.
- **The prompt validator.** `validar_prompt` in utils.py rejects a request
  shorter than 10 characters once stripped. It also rejects a request whose
  lower-cased text contains one of four denylisted keywords, naming the
  first in list order. This is module `PromptValidation`.
- **Post-processing of the model's reply** in langchain_client.py. The
  Ollama base URL is derived by deleting `/api/generate` and then
  `/v1/completions` from the configured endpoint. The SQL is then taken out
  of a ```` ```sql ```` fenced block in the reply when there is one. This is
  module `LlmResponse`. The model lifts both steps out of
  `gerar_sql_com_langchain` as functions of their own.

Module `Text` holds the Python string primitives these routines use, over
ASCII: `str.isspace`, `upper`, `lower`, `strip`, `split()[0]`, the `in`
operator on strings and `replace(old, "")`.

The regular expression ```` ```sql\s*(.*?)\s*``` ```` (DOTALL, IGNORECASE) is
specified by what `re.search` reports. `LlmResponse.MatchAt` states that an
opening fence starts a match ending at the first closing fence after it,
because the group is lazy. `LlmResponse.SearchFinds` states that the
reported match is the leftmost. The extraction is computed by a different
rule: the leftmost opening fence, then the first fence after it. The
contracts of `SearchFence` and `FencedOrWhole` prove the two agree. The
proof rests on two facts: opening fences never overlap, and the backticks
of a later opening fence would close an earlier one.

Three facts about the code shape the model:
- `validar_prompt` (utils.py:16-23) has a minimum prompt length and no
  maximum.
- Its denylist has four keywords.
- `verifica_comando_perigoso` (models.py:5-6) compares the whole first word
  of `split()` with the guarded commands. So `DELETE;` passes unguarded
  (`SafetyGate.GluedPunctuationIsUnguarded`).

## Model

| member | source | states |
|---|---|---|
| SafetyGate.Classify | models.py:4-10 | A guarded first word with no `WHERE` in the upper-cased statement is blocked with the warning. A guarded first word with `WHERE` anywhere is permitted with the caution. Any other first word is permitted with an empty annotation. Guarded means the upper-cased first word of `split()` is DELETE, UPDATE or DROP. A blank statement is excluded because `split()[0]` raises on it. |
| SafetyGate.BlockedExactly | models.py:6-10 | Execution is refused exactly when the first word is guarded and `WHERE` is absent. Refusal happens exactly when the annotation is the missing-WHERE warning. |
| SafetyGate.ClassifyIgnoresCase | models.py:5-7 | Two statements that agree once upper-cased get the same verdict. |
| SafetyGate.ClassifyIgnoresLeadingSpace | models.py:5-7 | Whitespace put before a statement changes neither its first word nor the WHERE test, so the verdict is unchanged. |
| SafetyGate.GuardedByFirstWord | models.py:5-6 | The statement is guarded exactly when the upper-cased result of `split()[0]` is in the guarded list. |
| SafetyGate.DeleteWithoutWhereIsBlocked | models.py:7-8 | `DELETE FROM users;` is blocked with the missing-WHERE warning. |
| SafetyGate.UpdateWithWhereIsCautioned | models.py:6-9 | `UPDATE users SET active=1 WHERE id=5;` is permitted with the caution. |
| SafetyGate.SelectPasses | models.py:6-10 | `SELECT * FROM orders;` is permitted with an empty annotation. |
| SafetyGate.GluedPunctuationIsUnguarded | models.py:5-6 | `DELETE;` and `drop(table)` are permitted with an empty annotation. The whole first word must equal a guarded command. |
| SafetyGate.NonAsciiSpaceIsUnguarded | models.py:5-6 | With whitespace taken over ASCII, `DELETE` followed by a no-break space and `FROM t` has one first word and is permitted with an empty annotation. |
| SafetyGate.HiddenWhereLetsThrough | models.py:7-9 | `delete from logs -- nowhere` is permitted with the caution. A `WHERE` inside a comment or another word satisfies the test. |
| PromptValidation.ValidatePrompt | utils.py:16-23 | A prompt shorter than 10 characters once stripped gets the too-short message, whatever it contains. Otherwise the first denylisted keyword that occurs in the lower-cased prompt is named in the refusal. A prompt is accepted exactly when it is long enough and mentions no keyword. There is no upper bound on length. The result is valid exactly when the message is empty. |
| PromptValidation.FirstListedIn | utils.py:19-22 | The result is the index of the first word of the list that occurs in the text. None means no word of the list occurs. |
| PromptValidation.FirstMentionedUnique | utils.py:20-22 | Only one keyword can be the first mentioned in list order. |
| PromptValidation.MentionIsRefused | utils.py:17-22 | A prompt that mentions any denylisted keyword, in any letter case, is refused. |
| PromptValidation.ValidateIgnoresCase | utils.py:17-21 | Two prompts that agree once lower-cased get the same result. |
| PromptValidation.TooShortScenarios | utils.py:17-18 | `hi`, `grant` and `   grant all   ` get the too-short message. The length check runs before the denylist. |
| PromptValidation.LongerWordIsRefused | utils.py:19-22 | `show the truncated rows` is refused as naming `truncate`, because the test is an unanchored substring test. |
| PromptValidation.PlainRequestIsAccepted | utils.py:19-23 | `show me all sales plans` is accepted with an empty message. |
| LlmResponse.OllamaBaseUrl | langchain_client.py:26-27 | The base URL is never longer than the configured endpoint. |
| LlmResponse.BaseUrlUnchanged | langchain_client.py:26-27 | The endpoint is returned unchanged exactly when it contains neither `/api/generate` nor `/v1/completions`. |
| LlmResponse.BaseUrlOfEndpoint | langchain_client.py:24-27 | A host followed by `/api/generate`, or by `/v1/completions`, yields the host, provided the host mentions neither path. |
| LlmResponse.DefaultEndpoint | langchain_client.py:25-27 | `http://localhost:11434/api/generate` yields `http://localhost:11434`, as the code comment says. |
| LlmResponse.SplicedPathSurvives | langchain_client.py:26-27 | Each deletion is one left-to-right pass, and the generate path is deleted first. So `/api/gen` + `/v1/completions` + `erate` yields `/api/generate`. |
| LlmResponse.EndpointPathFacts | langchain_client.py:26-27 | No proper suffix of either path starts that path or the other, for all four pairings of the generate and completions paths. The completions path does not contain the generate path. |
| LlmResponse.MatchAt | langchain_client.py:72-73 | The pattern matches from `i` to a closing fence at `j` exactly when an opening fence in any letter case starts at `i` and `j` is the first fence at or after the opening fence's end, because the group is lazy and DOTALL lets it cross lines. |
| LlmResponse.SearchFinds | langchain_client.py:72-73 | `re.search` reports the match from `i` to `j` exactly when `i` is the leftmost opening fence in any letter case and `j` is the first fence after it. |
| LlmResponse.LeftmostMatchOpensFirst | langchain_client.py:72-73 | A match with no match starting before it begins at the leftmost opening fence and ends at the first fence after it. Conversely, that span is a match and no match starts before it. |
| LlmResponse.SearchFence | langchain_client.py:72-73 | When a span is returned, it is the match `re.search` reports: the leftmost opening fence (any letter case) up to the first closing fence after it. It is the only such match. None means the pattern matches nowhere. |
| LlmResponse.FencedOrWhole | langchain_client.py:72-79 | With a match, the result is the stripped text between the fences. With no match, the result is the text itself. It is never longer than the text, and it has no surrounding whitespace when the text has none. |
| LlmResponse.ExtractSql | langchain_client.py:69-79 | The reply is stripped and then searched. The result is the stripped group of the leftmost fenced block, or the whole stripped reply when there is no fenced block. Either way it is no longer than the reply and has no leading or trailing whitespace. |
| LlmResponse.FencedBlockUsed | langchain_client.py:72-75 | In a stripped reply whose leftmost match spans `i` to `j`, the SQL is the stripped text between the fences. |
| LlmResponse.PlainReplyIsUsedWhole | langchain_client.py:69-79 | A reply that contains no backtick fence yields the whole stripped reply. |
| LlmResponse.FencedReplyScenario | langchain_client.py:69-75 | A reply with prose around a ```` ```sql ```` block yields exactly `SELECT 1;`. |
| LlmResponse.UnclosedNoMatch | langchain_client.py:72-73 | When the leftmost opening fence is never closed, no opening fence yields a match. |
| LlmResponse.FirstMatchFound | langchain_client.py:72-73 | The leftmost opening fence and the first fence after it form the leftmost match, and no other leftmost match exists. |
| Text.IsSpace | models.py:5 | The whitespace that `strip()`, `split()` and the regex class `\s` skip is exactly space, tab, line feed, vertical tab, form feed, carriage return and the separators U+001C to U+001F. |
| Text.Upper | models.py:5-7 | `upper()` keeps the length, leaves no letter a to z, keeps every character's letter up to case, and changes no character outside a to z. |
| Text.Lower | utils.py:21 | `lower()` keeps the length, leaves no letter A to Z, keeps every character's letter up to case, and changes no character outside A to Z. |
| Text.Strip | utils.py:17 | `str.strip()` returns a slice of its input with only whitespace around it in the input. The result has no whitespace at either end. It is empty exactly when the input is blank. |
| Text.FirstWord | models.py:5 | `split()[0]` is the run of non-space characters that follows the leading whitespace. |
| Text.FirstWordUnique | models.py:5 | A string has at most one first word. |
| Text.FirstWordAfterSpaces | models.py:5 | Leading whitespace does not change the first word. |
| Text.FirstWordMapped | models.py:5 | Upper-casing commutes with taking the first word. |
| Text.StripMapped | utils.py:17-21 | Lower-casing commutes with stripping. |
| Text.Find | models.py:7 | The result is the leftmost occurrence at or after the start index, or None when there is none. |
| Text.Contains | utils.py:21 | `p in s` holds exactly when `p` occurs at some index of `s`. |
| Text.ContainsAfterSpaces | models.py:7 | Whitespace put in front of a string neither creates nor removes an occurrence of a pattern that starts with a non-space character. |
| Text.RemoveAll | langchain_client.py:26-27 | `replace(p, "")` never lengthens its input. |
| Text.RemoveAllUnchanged | langchain_client.py:26-27 | `replace(p, "")` leaves a string unchanged exactly when `p` does not occur in it. Otherwise the string gets strictly shorter. |
| Text.RemoveAllAfterPrefix | langchain_client.py:26-27 | When no occurrence starts inside a prefix, `replace(p, "")` copies the prefix and goes on with the rest. |

## Left out

- app_gscript.py: the Streamlit page, session state, buttons and the database cursor. These are UI and database I/O. The page is wired to run `validar_prompt` before the button-triggered SQL generation (app_gscript.py:30-38), and `PromptValidation.ValidatePrompt` speaks to its `valido` result. It runs `verifica_comando_perigoso` before execution (app_gscript.py:50-54), and `SafetyGate.BlockedExactly` speaks to its `permitido` result. As written, the page never reaches the gates. The import at app_gscript.py:17 needs names that utils.py does not define. The call at :18, repeated at :36, passes one argument to `gerar_sql_com_langchain`, which takes three parameters. The model does not cover that wiring.
- llm_client.py: the HTTP POST to the model endpoint and its `lru_cache`. These are network calls and hidden cache state.
- db.py, models/lm_studio_model.py and models/ollama_model.py: connection setup and thin wrappers over foreign libraries.
- langchain_client.py around the two string steps:
  - the ChatOllama client, the prompt template and `invoke`, which are a foreign library and the network;
  - the error string returned by the exception handler;
  - the final `truncate_string_by_chars`. It is imported from utils, but utils.py does not define it, so its behaviour is not part of this model. `get_approx_token_count`, which only feeds a log line, is not part of this model either.
- utils.py logging (`os.makedirs`, `logging.basicConfig`, `log_event`): file I/O. The model treats logging as a no-op.
- Unicode: `upper`, `lower`, `strip`, `split`, the regex class `\s` and the regex's IGNORECASE are modelled over ASCII.
  - Text.Upper and Text.Lower change only the letters a to z and A to Z and leave every non-ASCII character unchanged. Python maps many non-ASCII characters, such as the Kelvin sign U+212A, which `lower()` turns into `k`. So `please revo\u212Ae access now` is refused by `validar_prompt` but accepted by the model.
  - Case mappings that change length, such as `ß` to `SS`, are not modelled.
  - The opening fence is matched case-insensitively over ASCII only. Python's IGNORECASE also lets U+017F `ſ` match `s` in ```` ```ſql ````, which the model does not.
  - Text.IsSpace is `str.isspace` restricted to ASCII. Non-ASCII whitespace is not modelled, and this errs on the permissive side in the safety gate. Python's `strip()` and `split()` treat the no-break space U+00A0 as whitespace, so `DELETE`, U+00A0, `FROM t` has first word `DELETE` and is blocked by `verifica_comando_perigoso`. The model reads one first word and permits it (`SafetyGate.NonAsciiSpaceIsUnguarded`).
- PromptValidation.ValidatePrompt: a `None` prompt is not modelled. The model takes a string, and its empty-string case covers `not prompt`.
- SafetyGate.Classify: a blank statement is excluded by a precondition. The Python code raises `IndexError` on it and the model does not represent the exception.
- LlmResponse.OllamaBaseUrl: its own contract states only the length bound. What it computes is stated by `BaseUrlUnchanged`, `BaseUrlOfEndpoint`, `DefaultEndpoint` and `SplicedPathSurvives`.
- Idempotence is not stated separately for any of the routines. Each is a function of its input alone, so repeated calls agree by definition.
