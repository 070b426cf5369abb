# telegram-gpt core, modelled in Dafny

A model of the pure logic of the `telegram-gpt` bot, a Telegram front end to
a chat-completion API. It covers four parts of the bot.

- **Message splitters** (`src/telegram.rs`). `bot_split_send` word-wraps an
  answer into chunks of at most 4096 characters. `bot_split_send_formatted`
  packs whole lines into chunks and treats an over-long line as fatal.
- **Slash-command parser** (`src/commands.rs`). `parse_command` and
  `CommandArg::from_text` turn a chat message into a `Command`. The parser
  handles mentions of other bots, ASCII case folding, `i64` chat ids and
  authorisation flags.
- **Conversation model** (`src/conversation.rs`). This covers the
  `MessageRole` discriminants, their `u8` and text conversions, and appending
  to a chat's history.
- **OpenAI request and answer** (`src/openai_api.rs`). This covers the input
  items `send_with_web_search` builds, `text_content`, `extract_output_text`
  over a JSON tree, and the trimming of the final answer.

Text is `seq<char>`, one element per Rust `char`, so `chars().count()` is the
sequence length. The modules are as follows.

- `Base` holds `Option`, `Result` and `Flatten`.
- `Strings` models the parts of Rust's `str` API the bot relies on:
  - `trim` and `trim_start`;
  - `char::is_whitespace`, as the Unicode White_Space set;
  - `split_whitespace`, `split` and `join`;
  - `to_ascii_lowercase` and `eq_ignore_ascii_case`.
- `Telegram`, `Commands`, `Conversations` and `OpenAiApi` follow the four
  source files.

Each splitter is a fold over tokens or lines, and the chunks it hands to the
checked senders are its result. A second fold keeps which tokens or lines
make up each chunk. It serves as the reference view for the "never split a
short token or a line" and "greedy" properties.

## Model

| member | source | states |
|---|---|---|
| Telegram.Tokens | src/telegram.rs:139 | `split_inclusive([' ', '\n'])`: the pieces concatenate to the text; each is non-empty and holds a separator only as its last character; every piece but the last ends with a separator |
| Telegram.HardSplit | src/telegram.rs:147-160 | the character-by-character split of a long token: the pieces concatenate to the token, each is non-empty and at most the limit, and all but the last have exactly the limit's length |
| Telegram.Pack | src/telegram.rs:139-175 | every chunk the token loop delivers is non-empty and within the limit |
| Telegram.PackConcat | src/telegram.rs:139-175 | the token loop loses nothing: its chunks concatenate to the buffer followed by all the tokens |
| Telegram.SplitSend | src/telegram.rs:123-178 | `bot_split_send`: a text within the limit is sent as the single chunk it is, even when empty; every chunk is within the limit; the chunks concatenate back to the text; a text over the limit yields no empty chunk |
| Telegram.BotSplitSend | src/telegram.rs:123-178 | at Telegram's 4096-character limit every chunk passes the length assertion of `send_message_checked`, and the chunks concatenate back to the text |
| Telegram.SplitSendGroups | src/telegram.rs:139-171 | the chunks of an over-long text group its tokens. A token within the limit is never split across chunks. A longer token becomes pieces of exactly the limit but the last, each piece its own chunk. A run of whole tokens ends only where the next token would not have fitted |
| Telegram.PackLines | src/telegram.rs:93-118 | the line loop is fatal exactly when some line exceeds the limit, and every chunk it delivers, before a fatal line or not, is non-empty and within the limit |
| Telegram.SplitSendFormatted | src/telegram.rs:79-121 | `bot_split_send_formatted`: a text within the limit is sent whole, even when empty. A longer one is fatal exactly when one of its `'\n'`-separated lines exceeds the limit. Every delivered chunk is non-empty and within the limit |
| Telegram.BotSplitSendFormatted | src/telegram.rs:79-121 | at Telegram's limit every delivered chunk passes the length assertion of `send_formatted_checked`, and a fatal outcome implies an over-long line |
| Telegram.SplitSendFormattedGroups | src/telegram.rs:93-118 | each chunk is a group of lines joined by `'\n'`. The groups, flattened, are the text's lines with only some empty lines deleted, so no line is ever split. Every group starts with a non-empty line and fits the limit. A chunk ends only where the next line would not have fitted after a newline |
| Telegram.FormattedRoundTrip | src/telegram.rs:93-118 | when no line is empty and none is over-long, joining the chunks with `'\n'` gives the text back |
| Telegram.FormattedDropsLeadingEmptyLine | src/telegram.rs:95-113 | an empty line met with an empty buffer is dropped: `"\n"` followed by a full-length line is sent as that line alone, which does not join back to the text |
| Telegram.FormattedDropsEmptyLineAtFullBuffer | src/telegram.rs:95-113 | for every limit, an empty line that arrives when the buffer is full forces a flush and is then dropped: a full-length line, an empty line and `c` are sent as the full line and `c`, which join back without the empty line |
| Commands.FromText | src/commands.rs:9-23 | `from_text`: `Empty` exactly for an absent or blank argument; `None` exactly for `none` in any ASCII case after trimming; otherwise `Text` of the trimmed, non-empty argument |
| Commands.FromTextIgnoresPadding | src/commands.rs:12 | surrounding whitespace never changes the argument |
| Commands.FromTextArgText | src/commands.rs:9-23 | every argument `from_text` can produce is read back from its written form |
| Commands.TrimStartMatches | src/commands.rs:59 | `trim_start_matches('/')`: a suffix of the input, everything dropped is a slash, and what remains does not start with one |
| Commands.Tokenize | src/commands.rs:60-67 | the command part is the whitespace-free prefix up to the first whitespace; the argument is the rest with leading whitespace removed, and is absent exactly when that rest is all whitespace |
| Commands.SplitMention | src/commands.rs:69-72 | `split_once('@')`: no mention exactly when there is no `@`; otherwise name, `@` and mention concatenate to the command part and the name holds no `@` |
| Commands.ParseI64 | src/commands.rs:114-119 | `str::parse::<i64>`: a result lies in the `i64` range, and the text is an optional sign followed only by digits; the empty text and a lone sign are rejected |
| Commands.ParseFormatI64 | src/commands.rs:114-119 | every `i64` written in decimal parses back to itself |
| Commands.ParseI64Spelled | src/commands.rs:114-119 | every spelling as an optional `+` or `-` followed by digits, leading zeros allowed, parses to its signed value exactly when that value is in the `i64` range |
| Commands.ParseI64OutOfRange | src/commands.rs:114-119 | a value outside the `i64` range is rejected however it is spelt |
| Commands.ParseBoolFlag | src/commands.rs:120-126 | `true` exactly for `true` in any ASCII case or `1`; `false` exactly for `false` in any ASCII case or `0`; nothing otherwise |
| Commands.ParseApprove | src/commands.rs:109-130 | `ApproveChat` exactly when there are two whitespace-separated words, an `i64` then a flag, and it carries their values; otherwise `Invalid`, never `Empty` |
| Commands.ParseApproveRendered | src/commands.rs:109-130 | a chat id and flag written as two words parse back to `ApproveChat` with those values |
| Commands.Dispatch | src/commands.rs:80-133 | each known name gives its own command: `help`, `start`, `models` without an argument give `Help`, `Start`, `Models`; `model`, `key`, `systemprompt` give that command carrying `from_text` of the argument; `approve` gives `Approve`, with `Empty` exactly when there is no argument, and `Commands.DispatchApprove` states the exact value for an argument; an error, always `Unknown command`, comes exactly for an unknown name or for `help`/`start`/`models` with an argument |
| Commands.DispatchApprove | src/commands.rs:105-130 | `approve` with an argument gives `Approve` of `ParseApprove` of that argument |
| Commands.Interpret | src/commands.rs:69-80 | `Ignore` exactly when the command part mentions a bot whose name differs in more than ASCII case; otherwise dispatch on the lowercased name |
| Commands.InterpretMention | src/commands.rs:69-78 | a mention of this bot in any ASCII case reads as no mention; a mention of another bot is ignored whatever the command name |
| Commands.InterpretIgnoresCase | src/commands.rs:74-80 | two command parts that differ only in ASCII case are interpreted alike |
| Commands.ParseCommand | src/commands.rs:53-134 | total; every error is `Unknown command`; a message whose trimmed form does not start with `/` is an error; otherwise `Ignore` exactly for a foreign mention |
| Commands.ParseCommandIgnoresPadding | src/commands.rs:54 | only the trimmed message matters |
| Commands.ParseCommandExtraSlash | src/commands.rs:59 | an extra leading slash does not change the command |
| Commands.ParseWritten | src/commands.rs:54-67 | a message written as `/`, a command word and an optional whitespace-led argument is read back as that word and the argument with leading whitespace dropped |
| Commands.ParseCommandIgnoresCase | src/commands.rs:80 | changing the ASCII case of the command name does not change the result |
| Commands.BareCommandRejectsArgument | src/commands.rs:81-101 | `help`, `start` and `models` followed by an argument are an error |
| Commands.ParseRender | src/commands.rs:53-134 | every command the parser can produce is read back from its canonical message |
| Conversations.RoleTryFrom | src/conversation.rs:56-67 | `try_from`: `Ok` exactly for the bytes 0 to 2, whose discriminant the result has; `Err(())` for every other byte |
| Conversations.RoleRoundTrip | src/conversation.rs:19-66 | `try_from(role as u8)` gives the role back for every role |
| Conversations.Discriminant | src/conversation.rs:19-25 | the discriminant is at most 2 and is the role's position in the declaration order `System`, `User`, `Assistant` |
| Conversations.DiscriminantInjective | src/conversation.rs:19-25 | distinct roles have distinct discriminants |
| Conversations.RoleName | src/conversation.rs:46-54 | every role prints as a non-empty name that is read back as that role |
| Conversations.RoleFromNameSound | src/conversation.rs:46-54 | only the three printed names are read back as roles: whatever is accepted prints back to the same text |
| Conversations.RoleNameInjective | src/conversation.rs:46-54 | the three printed names are pairwise distinct |
| Conversations.DefaultRole | src/conversation.rs:69-73 | the default role has discriminant 0, the one `try_from(0)` gives |
| Conversations.DefaultMessage | src/conversation.rs:13-17 | the derived default message has the default role and empty text |
| Conversations.AddMessage | src/conversation.rs:28-30 | `add_message` appends the message at the back, keeps the earlier history, and leaves chat id, authorisation, API key and system prompt unchanged |
| Conversations.AddMessages | src/conversation.rs:32-39 | `add_messages` appends the batch in iteration order and leaves the other fields unchanged |
| Conversations.AddMessagesAppend | src/conversation.rs:32-39 | adding one batch and then another is adding both at once |
| Conversations.AddMessagesSingle | src/conversation.rs:28-39 | a one-message batch is `add_message`; an empty batch changes nothing |
| OpenAiApi.Lookup | src/openai_api.rs:100 | `Value::get` on an object: nothing exactly when no member has the key; otherwise the value of its last occurrence |
| OpenAiApi.Get | src/openai_api.rs:100-122 | `Value::get` on any value: nothing exactly for a non-object or a missing key; otherwise the value of the key's last occurrence in the object |
| OpenAiApi.TextContent | src/openai_api.rs:77-92 | the item built by `text_content` is an object that reads back as its role, its content type name and its text |
| OpenAiApi.PromptItems | src/openai_api.rs:14-18 | one `developer` item with `input_text` content exactly when the system prompt is present and not blank |
| OpenAiApi.NonBlankEmpty | src/openai_api.rs:20-33 | no message survives the blank filter exactly when every message is blank |
| OpenAiApi.MessageItems | src/openai_api.rs:20-29 | one item per non-blank message, in history order |
| OpenAiApi.ReadMessageItemRoundTrip | src/openai_api.rs:21-27 | a user message becomes a `user`/`input_text` item and an assistant message an `assistant`/`output_text` item, and the message is read back from it |
| OpenAiApi.MessageItemsRoundTrip | src/openai_api.rs:20-29 | reading the message items back gives exactly the non-blank history in order |
| OpenAiApi.PromptItemIsNotMessage | src/openai_api.rs:14-24 | the developer item is never read as a history message |
| OpenAiApi.InputItems | src/openai_api.rs:12-33 | the error `no content available for OpenAI call` exactly when the prompt is absent or blank and every message is blank; otherwise the prompt item then the message items, non-empty |
| OpenAiApi.OutputTextsAppend | src/openai_api.rs:112-128 | the texts under `output` are collected item by item in document order: the texts of two runs of items are those of the first run followed by those of the second |
| OpenAiApi.ExtractOutputText | src/openai_api.rs:99-135 | a non-empty top-level `output_text` array wins with its string elements joined by `"\n"`; otherwise the texts under `output`, joined; `None` exactly when neither yields anything |
| OpenAiApi.ExtractMessageResponse | src/openai_api.rs:112-131 | the `output_text` parts of a message response come back joined by `"\n"` in order |
| OpenAiApi.ExtractMessageResponseSplits | src/openai_api.rs:112-131 | when no part holds a newline, splitting the extracted text on `'\n'` recovers the parts |
| OpenAiApi.TopLevelWins | src/openai_api.rs:100-110 | with a non-empty top-level `output_text` array, adding an `output` member does not change the answer |
| OpenAiApi.FinalAnswer | src/openai_api.rs:67-74 | `Ok` exactly when some text is extracted and it is not blank, with the text trimmed; otherwise the missing-text error carrying the response |
| OpenAiApi.FinalAnswerTrimmed | src/openai_api.rs:67-71 | the answer is already trimmed: trimming it again changes nothing |
| OpenAiApi.FinalAnswerEnds | src/openai_api.rs:67-71 | the answer is non-empty and neither starts nor ends with whitespace |
| OpenAiApi.SendWithWebSearch | src/openai_api.rs:6-75 | the no-content error exactly when there are no input items; otherwise a non-2xx status is an error, a body that is not JSON is an error, and a JSON body gives the final answer |
| Strings.WhitespaceIsUnicodeWhiteSpace | src/commands.rs:60 | `char::is_whitespace`, on which every trim and split depends, holds exactly for the 25 code points of the Unicode White_Space property, listed one by one |
| Strings.TrimStart | src/commands.rs:63 | `trim_start`: the result is a suffix of the input, everything dropped is whitespace, and the result does not start with whitespace |
| Strings.FindWhitespace | src/commands.rs:60 | `find(char::is_whitespace)`: nothing exactly when the text holds no whitespace; otherwise the index of a whitespace character with no whitespace before it |
| Strings.ToAsciiLowercase | src/commands.rs:80 | `to_ascii_lowercase`, also used at line 120: the same length, with each character folded from `A`..`Z` to `a`..`z` and every other character kept |
| Strings.Trim | src/commands.rs:12 | `str::trim`: no longer than the input, empty exactly for an all-whitespace input, and otherwise neither starting nor ending with whitespace |
| Strings.TrimIsSlice | src/commands.rs:12 | what `trim` leaves is a slice of the input with only whitespace on either side |
| Strings.TrimIdempotent | src/openai_api.rs:68 | trimming twice is trimming once |
| Strings.EqIgnoreAsciiCaseIffSameLowercase | src/commands.rs:15 | two strings are equal ignoring ASCII case exactly when their ASCII lowercasings are equal |
| Strings.SplitWhitespace | src/commands.rs:109 | `split_whitespace`: every word is non-empty and holds no whitespace |
| Strings.SplitWhitespaceGaps | src/commands.rs:109 | every text is its words, in order, with whitespace runs before, between and after them, at least one whitespace character between two words: nothing but whitespace is lost |
| Strings.SplitWhitespaceInterleave | src/commands.rs:109 | words with any whitespace runs around them, non-empty between two words, split back into exactly those words, whatever the padding |
| Strings.SplitWhitespaceIff | src/commands.rs:109 | the result equals a list of words exactly when they are words and the text is them with whitespace around and between them |
| Strings.SplitWhitespaceJoin | src/commands.rs:109 | words joined by single spaces `split_whitespace` back into the same words |
| Strings.Split | src/telegram.rs:93 | `split('\n')`: there is always at least one piece, and no piece holds the separator; with `Strings.JoinSplit` the pieces are fixed |
| Strings.JoinShape | src/openai_api.rs:107 | `join`, also used at line 130: nothing for no pieces; otherwise the result starts with the first piece, ends with the last, and its length is the pieces' total length plus one separator between each neighbouring pair |
| Strings.JoinSplit | src/telegram.rs:93 | joining the pieces of `split('\n')` with `'\n'` gives the text back |
| Strings.SplitJoin | src/openai_api.rs:130 | splitting a `"\n"`-join of newline-free pieces gives the pieces back |

## Left out

- Sending itself is not modelled. This covers the Telegram requests, reply parameters and parse modes, and a send failing part-way through a split. Only the chunk sequence the splitters hand to `send_message_checked` / `send_formatted_checked` is modelled.
- `fatal_panic` ends the process. It is modelled as the `Fatal` outcome, which carries the chunks sent before the over-long line.
- `escape_markdown_v2` is not modelled. It only wraps a teloxide function.
- `prune_to_token_budget` is not modelled. Its body is `unimplemented!()`.
- `record_user_message`, `record_assistant_response`, `discard_turn` and `TokenCounter` are called from `src/main.rs`. `src/conversation.rs` defines none of them, so they are not part of this model.
- `send_with_web_search` builds a payload with the model name, the web-search tool and `tool_choice`. It also reads `OPENAI_API_KEY`, makes the HTTP call, and formats the error text around the status and the body. These are not modelled. The status code and the body, already parsed as JSON or not, are parameters. A missing environment variable and a network failure are not represented.
- `openai_api.rs` matches a history message only on `User` and `Assistant` and uses a `HistoryMessage` type that is not part of this model. The model uses a local two-role `HistoryMessage`, separate from `Conversations.MessageRole`.
- JSON numbers are kept as their literal text, because nothing in the model reads them. Objects keep their members in order, and a repeated key resolves to its last occurrence.
- `src/openrouter_api.rs`, `src/models.rs`, `src/typing.rs`, `src/panic_handler.rs`, `src/db.rs`, `src/main.rs` and `telegramify.py` are not modelled. They deal with model listing and its float arithmetic, background tasks, process hooks, SQLite and bot wiring.
- `eq_ignore_ascii_case` compares UTF-8 bytes in Rust; the model compares characters, which agrees because only ASCII letters are folded.
- Telegram.FormattedRoundTrip: proved under the condition that no line is empty. An empty line is lost whenever it is appended to an empty buffer: at the start of the text, or right after the flush that it forces when the buffer is full (`Telegram.FormattedDropsLeadingEmptyLine`, `Telegram.FormattedDropsEmptyLineAtFullBuffer`). The exact condition for the round trip is not stated. `Telegram.SplitSendFormattedGroups` states the general case: only empty lines are ever lost.
