# WhatsApp bot: reply extraction, bounded chat history, prompt rendering

This project is a Dafny model of the conversational core of a WhatsApp bot. The bot reads the
newest incoming messages from WhatsApp Web and keeps a bounded history per chat, written
through to one JSON file per chat. It renders that history into a prompt for a language model,
pulls the user-facing messages out of the model's free-form answer, and types the reply with
the characters outside the Basic Multilingual Plane removed.

The modules follow the repository's files:

- `ResponseProcessor` (`response_processor.dfy`) models `ResponseProcessor`. The strategies run
  in a fixed order: the markup of fenced blocks, a structured parse of the whole text, then the
  bare `<Message>(.*?)</Message>` pattern. The parse can fail and fall back to that pattern.
  `_ensure_root_node` is modelled too. The helpers are:
  - `MessagePattern`, the lazy `findall` as a left-to-right scan;
  - `FencedBlocks`, the `findall` of the fenced-block pattern;
  - `XmlTree`, the element tree and ElementTree's `.//Message` search.
- `ChatManagement` (`chat_manager.dfy`) models `ChatManager`. It is a class whose
  `chatHistory` map the methods update in place, over an optional store.
- `ChatPersistence` (`chat_persistence.dfy`) models `ChatPersistenceManager`. It is a class
  whose `files` field is the storage directory: a map from file name to what reading that file
  gives.
- `PromptManager` (`prompt_manager.dfy`) models `format_prompt`. It covers the one-line-per-message
  rendering, Python's `str.format` with named fields, and the fallback template.
- `WhatsAppClient` (`whatsapp_client.dfy`) models the pure parts of `WhatsAppClient`:
  - the ten-element window of `get_messages`;
  - its header parse, which skips an element on failure;
  - the non-BMP filter of `send_message`.
- `ExtractionExamples` (`extraction_examples.dfy`) works the extractor through concrete
  documents.
- `Strings`, `Slices`, `Messages` and `Wrappers` supply Python's `strip`, `split`, `join`,
  negative slicing, the message dictionary and `Option`.

Behaviour of the code worth noting:

- `process_response` returns one newline-joined string, not a list.
- Two sibling `<Message>` elements are not wrapped in a root. The single-root test compares no
  names, so they go to the parser as they are, the parse fails, and the items come from the
  pattern fallback (`ExtractionExamples.TwoSiblingsExample`).
- A single bare `<Message>A</Message>` passes the single-root test and becomes the root.
  `.//Message` only looks below the root, so such a block yields nothing
  (`ResponseProcessor.RootMessageIgnored`, `ResponseProcessor.FencedBareMessagesFallThrough`).
- The fenced-block pattern needs the block's last `>` right before the closing three backticks
  (`FencedBlocks.NoFenceEndNoBlocks`).
- The lazy load in `get_chat_history` does not truncate.
- Clearing one chat deletes its file only when that chat is in memory.
- Messages missing `date` or `time` are accepted by the store but make the prompt fail.

## Model

| member | source | states |
|---|---|---|
| ResponseProcessor.ProcessResponse | processors/response_processor.py:19-43 | the loop over the fenced blocks and the two fallbacks compute exactly `Processed`, the newline-join of the cleaned items of the first strategy with a non-empty list |
| ResponseProcessor.StrategyOrder | processors/response_processor.py:28-41 | fenced-block items win when there are any; otherwise the whole-text items; the bare pattern only when both are empty; the result is empty iff all three are |
| ResponseProcessor.BlockMessagesStep | processors/response_processor.py:30-33 | each further block adds its own items after those of the earlier blocks, in block order |
| ResponseProcessor.ProcessedIsJoinOfTrimmed | processors/response_processor.py:43 | the returned text is empty exactly when no trimmed non-blank item is left |
| ResponseProcessor.Cleaned | processors/response_processor.py:43 | at most as many items as given, each non-empty and stripped |
| ResponseProcessor.Kept | processors/response_processor.py:43 | one item gives at most one kept item, non-empty and stripped |
| ResponseProcessor.CleanedMembers | processors/response_processor.py:43 | a text is kept iff it is the non-empty strip of some item |
| ResponseProcessor.CleanedAppend | processors/response_processor.py:43 | cleaning works item by item: the cleaning of a concatenation is the concatenation of the cleanings |
| ResponseProcessor.CleanedAllBlank | processors/response_processor.py:43 | whitespace-only items never appear: a list of them cleans to nothing |
| ResponseProcessor.CleanedKeepsTrimmed | processors/response_processor.py:43 | items already non-empty and stripped pass through unchanged and in order |
| ResponseProcessor.BlankFencedItemsGiveEmpty | processors/response_processor.py:32-36 | fall-through is decided before trimming: whitespace-only fenced items stop the later strategies, and the result is empty |
| ResponseProcessor.SilentBlocks | processors/response_processor.py:30-33 | blocks that yield no items contribute nothing |
| ResponseProcessor.FencedBareMessagesFallThrough | processors/response_processor.py:53-64 | blocks that parse to a bare `Message` root add nothing, so the whole text decides the result |
| ResponseProcessor.ExtractMessagesFromXml | processors/response_processor.py:45-69 | the method returns exactly `XmlMessages`: the texts of the `Message` elements on a parse, the pattern matches of the unwrapped text on a parse error |
| ResponseProcessor.XmlMessagesCases | processors/response_processor.py:53-69 | parse error gives the pattern matches of the original argument; otherwise a text is collected iff it is the non-empty text of a `Message` element below the root |
| ResponseProcessor.RootMessageIgnored | processors/response_processor.py:58 | a document whose root is itself a childless `Message` yields no item |
| ResponseProcessor.EnsureRootNode | processors/response_processor.py:71-84 | blank or not starting with `<` gives the wrapped stripped text; single-root test passed gives the stripped text; failed gives it wrapped; the output always starts with `<` and ends with `>` |
| ResponseProcessor.LooksLikeSingleRootIff | processors/response_processor.py:80 | the computed single-root test accepts exactly the texts of the form `<name rest>middle</name2>` with no `>` in `rest`, the regex's language |
| ResponseProcessor.ShapeParts | processors/response_processor.py:80 | every text of the regex's shape passes the computed test |
| ResponseProcessor.RootPatternParts | processors/response_processor.py:80 | every text passing the computed test has the regex's shape |
| ResponseProcessor.WrapLooksLikeSingleRoot | processors/response_processor.py:77 | the synthetic `<Response>` wrapping always passes the single-root test |
| ResponseProcessor.RootedIsKept | processors/response_processor.py:80-81 | stripped text with a single root is returned unchanged |
| ResponseProcessor.EnsureRootNodeIdempotent | processors/response_processor.py:71-84 | normalising twice is normalising once |
| ResponseProcessor.ReplyOrRaw | processors/message_processor.py:67-68 | a blank extracted reply is replaced by the raw response; any other is kept |
| MessagePattern.ScanFrom | processors/response_processor.py:16 | the scan's spans are exactly the engine's matches from that position: each an opening tag closed by the nearest closing tag, the first such after the resume point, in order and non-overlapping |
| MessagePattern.ScanUnique | processors/response_processor.py:16 | there is only one such list of matches, so the scan is the `findall` |
| MessagePattern.FindAllOfScan | processors/response_processor.py:41 | any list of spans that is a scan from 0 gives exactly the `findall` groups |
| MessagePattern.Groups | processors/response_processor.py:16 | one group per match, the text between its tags |
| MessagePattern.NoMatchContainsClose | processors/response_processor.py:16 | no match contains `</Message>` |
| MessagePattern.MatchIsBracketed | processors/response_processor.py:16 | every match occurs in the text between a `<Message>` and a `</Message>` |
| MessagePattern.FindAllEmptyIff | processors/response_processor.py:41 | `findall` is empty iff no opening tag is followed by a closing tag |
| MessagePattern.NoCloseNoMatch | processors/response_processor.py:69 | text without `</Message>` has no match |
| MessagePattern.BracketedMatch | processors/response_processor.py:16 | a tag pair around text without `<` is a match, found first from where it starts, with that text as group |
| MessagePattern.FindAllBracketed | processors/response_processor.py:16 | a run of `<Message>g</Message>` elements, with no `<` in any `g`, gives exactly the `g`s in order |
| MessagePattern.MatchAtUnique | processors/response_processor.py:16 | two matches starting at the same place are the same match |
| MessagePattern.EmptyTogether | processors/response_processor.py:16 | two scans from the same position are empty together |
| MessagePattern.HeadsEqual | processors/response_processor.py:16 | two non-empty scans from the same position start with the same match |
| FencedBlocks.MatchAt | processors/response_processor.py:17 | a match at a fence is a block with the pattern's parts; no fence means no match |
| FencedBlocks.LangEnd | processors/response_processor.py:17 | the optional `xml` tag is consumed exactly when it is there |
| FencedBlocks.ContentStart | processors/response_processor.py:17 | `\s*` consumes the whitespace after the fence and tag, up to the first other character |
| FencedBlocks.ScanFrom | processors/response_processor.py:25 | the scan's blocks are exactly the pattern's matches from that position, each the first after the resume point |
| FencedBlocks.Texts | processors/response_processor.py:25 | one group per block, the text of the block |
| FencedBlocks.BlocksAreFenced | processors/response_processor.py:17 | every group starts with `<`, has a closing tag after a first `>`, ends with `>`, is preceded by a fence and followed by one |
| FencedBlocks.BlocksInOrder | processors/response_processor.py:25 | the blocks are non-overlapping and in left-to-right order |
| FencedBlocks.NoFenceEndNoBlocks | processors/response_processor.py:17 | text without `>` immediately before three backticks yields no block |
| FencedBlocks.NoFenceNoBlocks | processors/response_processor.py:17 | text without three backticks yields no block |
| XmlTree.MessageElements | processors/response_processor.py:58 | an element is found iff it lies strictly below the root and has the tag `Message` |
| XmlTree.WithTag | processors/response_processor.py:58 | the elements kept are exactly those with the tag |
| XmlTree.ForestAppend | processors/response_processor.py:58 | document order of a forest is the order of its trees |
| XmlTree.ChildlessRootHasNoMessages | processors/response_processor.py:58 | a root without children has no `Message` descendants, whatever its own tag |
| XmlTree.MessagesOfChildren | processors/response_processor.py:58 | the elements found below a root are those of its earlier children followed by those of its later ones |
| XmlTree.NonEmptyTexts | processors/response_processor.py:59-62 | at most one item per element, none of them empty |
| XmlTree.NonEmptyTextsMembers | processors/response_processor.py:61-62 | a text is collected iff some element has it as its non-empty text |
| XmlTree.AllTextsKept | processors/response_processor.py:59-62 | when every element has text, the items are those texts in document order |
| ExtractionExamples.TwoSiblingsExample | processors/response_processor.py:80-81 | two sibling `Message` elements that fail to parse come back as `A` and `B` through the pattern fallback |
| ExtractionExamples.SiblingsNotWrapped | processors/response_processor.py:80-81 | a run of sibling `Message` elements passes the single-root test and is not wrapped |
| ExtractionExamples.SiblingsViaPattern | processors/response_processor.py:66-69 | when the siblings fail to parse, the items are their texts, from the pattern |
| ExtractionExamples.BlankMessagesExample | processors/response_processor.py:43 | blank items before a kept one vanish from the result |
| ExtractionExamples.BlankThenKept | processors/response_processor.py:43 | whitespace-only items followed by trimmed ones clean to the trimmed ones |
| ExtractionExamples.WellFormedDocument | processors/response_processor.py:53-64 | a wrapped document whose root holds `Message` leaves yields their texts |
| ExtractionExamples.WellFormedExample | processors/response_processor.py:19-43 | a well-formed two-message document gives `Hi` and `Bye` on two lines |
| ExtractionExamples.UnclosedExample | processors/response_processor.py:40-41 | an unclosed `<Message>Oops<Message>` that fails to parse gives the empty result |
| ExtractionExamples.LeafTexts | processors/response_processor.py:58-62 | the `Message` leaves of a root give back their texts in order |
| ExtractionExamples.NoBacktickNoBlocks | processors/response_processor.py:25 | text without a backtick yields no fenced block |
| ExtractionExamples.NoSlashNoMatch | processors/response_processor.py:41 | text without `/` has no pattern match |
| ExtractionExamples.NoSlashIsWrapped | processors/response_processor.py:80-84 | text without `/` never passes the single-root test |
| ChatManagement.ChatManager.constructor | managers/chat_manager.py:7-28 | without a store the map is empty; with one, every listed chat is loaded and truncated to its newest `maxHistory` entries; a positive bound establishes the invariant |
| ChatManagement.ChatManager.AddMessages | managers/chat_manager.py:30-51 | only the named chat changes and it becomes `Appended`; the store receives exactly that list through `save_chat_history`, whose result is ignored; the invariant is kept |
| ChatManagement.ChatManager.GetChatHistory | managers/chat_manager.py:53-61 | a chat in memory is returned unchanged; otherwise the stored list, or `[]`, is returned, and it is cached untruncated only when non-empty |
| ChatManagement.ChatManager.ClearChatHistory | managers/chat_manager.py:63-75 | a named chat in memory becomes `[]` and its file is deleted; a named chat not in memory changes nothing; no name or an empty one empties the map and deletes every `.json` file |
| ChatManagement.Items | managers/chat_manager.py:32-33 | a single value is treated as a one-element list |
| ChatManagement.AppendedKeepsNewest | managers/chat_manager.py:35-45 | the chat holds the last `min(m, |old|+|new|)` entries of the old history followed by the new messages, never more than `m`; an absent chat starts from `[]` |
| ChatManagement.AppendedEndsWithLast | managers/chat_manager.py:39-45 | the last message added is the newest entry |
| ChatManagement.TruncateKeepsNewest | managers/chat_manager.py:42-45 | truncation keeps the newest `min(m, n)` entries in order |
| ChatManagement.TruncateZeroKeepsAll | managers/chat_manager.py:42-45 | with a limit of 0, `ms[-0:]` leaves the whole list |
| ChatManagement.TruncateIdempotent | managers/chat_manager.py:42-45 | truncating twice is truncating once |
| ChatManagement.TruncateShort | managers/chat_manager.py:42 | a list within the limit is kept as it is |
| ChatManagement.ReloadAfterSave | managers/chat_manager.py:17-25 | a fresh manager over the store after a successful write loads exactly the history written |
| ChatManagement.SavedNames | managers/chat_persistence_manager.py:36-40 | a save lists no new chat other than the one saved |
| ChatManagement.DeletedNames | managers/chat_persistence_manager.py:68-88 | a deletion lists no new chat |
| ChatManagement.BoundedUpdate | managers/chat_manager.py:42-45 | storing a list within the limit keeps every history within it |
| ChatManagement.CoveredAfterSave | managers/chat_manager.py:48-51 | after a save every listed chat is still in memory |
| ChatPersistence.ChatPersistenceManager.SaveChatHistory | managers/chat_persistence_manager.py:22-48 | the validation loop rejects any non-dictionary or a message without `sender` or `message` and writes nothing; a valid list is written under `chat.json` as `{last_updated, messages}`; the result is true exactly for a valid list that was written |
| ChatPersistence.ChatPersistenceManager.DeleteChatHistory | managers/chat_persistence_manager.py:68-88 | a non-empty name removes that chat's file if there is one; no name or an empty one removes every `.json` file, in any order, and nothing else |
| ChatPersistence.LoadAfterSave | managers/chat_persistence_manager.py:36-63 | round trip: after a successful save, loading the same chat gives back the messages saved, stamped with the save time |
| ChatPersistence.InvalidSaveWritesNothing | managers/chat_persistence_manager.py:26-34 | a save with one invalid message leaves the directory as it was and reports failure |
| ChatPersistence.DateAndTimeUnchecked | managers/chat_persistence_manager.py:26-31 | a message with only `sender` and `message` passes the validation |
| ChatPersistence.SaveFrame | managers/chat_persistence_manager.py:36-40 | a save touches no file but the chat's own |
| ChatPersistence.SaveKeepsOtherChats | managers/chat_persistence_manager.py:36-40 | saving one chat does not change what any other chat loads |
| ChatPersistence.FileNameInjective | managers/chat_persistence_manager.py:36 | two chats never share a file name |
| ChatPersistence.FailedDumpLoadsEmpty | managers/chat_persistence_manager.py:39-40 | a dump that fails after the file was opened for writing leaves a chat that loads as `[]` |
| ChatPersistence.LoadFallbacks | managers/chat_persistence_manager.py:50-66 | a missing file, an unreadable file and a record without `messages` all load as `[]` |
| ChatPersistence.ChatNamesIff | managers/chat_persistence_manager.py:90-99 | a chat is listed iff its `.json` file exists: the five-character suffix is cut and restored without loss |
| ChatPersistence.DeleteOne | managers/chat_persistence_manager.py:70-79 | deleting one chat removes its file and nothing else; it is a no-op when the file is absent |
| ChatPersistence.DeleteAll | managers/chat_persistence_manager.py:80-88 | deleting all removes exactly the `.json` files: nothing is listed afterwards, other files stay unchanged |
| ChatPersistence.DeleteEmptyNameIsDeleteAll | managers/chat_persistence_manager.py:70 | an empty name is falsy and deletes every chat |
| PromptManager.RenderMessage | managers/prompt_manager.py:58 | a message renders iff it is a dictionary with all four keys |
| PromptManager.ScrapedMessageRenders | managers/prompt_manager.py:58 | a scraped message renders as `<Message sender=s date=d time=t>m</Message>`, attributes unquoted |
| PromptManager.StorableButNotRenderable | managers/prompt_manager.py:58 | a message the store accepts without `date` fails to render |
| PromptManager.Renderings | managers/prompt_manager.py:57-60 | all messages render iff each does; then one rendering per message in history order |
| PromptManager.EmptyHistory | managers/prompt_manager.py:57-60 | an empty history renders as the empty string |
| PromptManager.SingleHistory | managers/prompt_manager.py:57-60 | one message renders as its own line with no newline |
| PromptManager.HistoryCons | managers/prompt_manager.py:57-60 | a message before a non-empty history renders as its line, a newline, then the rest |
| PromptManager.MissingKeyFails | managers/prompt_manager.py:58 | one message missing a key makes the whole rendering fail; there is no default |
| PromptManager.Prefix | managers/prompt_manager.py:63 | prepending succeeds exactly when the rest does |
| PromptManager.FormatPlain | managers/prompt_manager.py:63 | a template without braces is returned unchanged |
| PromptManager.FormatLiteral | managers/prompt_manager.py:63 | brace-free text in front of a template is copied to the front of the result |
| PromptManager.FormatField | managers/prompt_manager.py:63 | a known `{name}` is replaced by its value, and formatting goes on after it |
| PromptManager.FormatUnknownField | managers/prompt_manager.py:63 | an unknown `{name}` makes formatting fail |
| PromptManager.FormatEscapes | managers/prompt_manager.py:63 | `{{` and `}}` stand for one brace |
| PromptManager.FormatLoneClose | managers/prompt_manager.py:63 | a lone `}` makes formatting fail |
| PromptManager.FormatUnclosed | managers/prompt_manager.py:63 | an unclosed `{` makes formatting fail |
| PromptManager.FormatPieces | managers/prompt_manager.py:63 | a template of text, escapes and known fields gives that text with every field replaced by its value and every escape by one brace |
| PromptManager.FormatParses | managers/prompt_manager.py:63 | conversely, every template that formats is such a sequence of pieces, and the result is their substitution |
| PromptManager.FallbackFormat | managers/prompt_manager.py:52 | the fallback template gives its fixed prefix followed by the `chat_history` value |
| PromptManager.FallbackPrefixPlain | managers/prompt_manager.py:52 | the fallback template's prefix holds no brace |
| PromptManager.PromptFromFallback | managers/prompt_manager.py:44-63 | without a readable template the prompt is the fixed Spanish instruction followed by the rendered history |
| PromptManager.PromptFromPieces | managers/prompt_manager.py:54-63 | a template of text and the three fields gives that text with the chat name, the history and the time in place |
| PromptManager.PromptNeedsAllKeys | managers/prompt_manager.py:58 | a message that cannot render makes the prompt fail, whatever the template |
| WhatsAppClient.GetMessages | whatsapp_client.py:88-118 | the loop returns exactly the harvest of the newest ten elements, so at most ten messages |
| WhatsAppClient.Harvest | whatsapp_client.py:91-116 | no more messages than elements |
| WhatsAppClient.HarvestStep | whatsapp_client.py:91-116 | each element adds its own message, or nothing when it fails |
| WhatsAppClient.HarvestAppend | whatsapp_client.py:91-116 | a failing element drops out on its own and the survivors keep their relative order |
| WhatsAppClient.HarvestMembers | whatsapp_client.py:108-116 | a message is returned iff some element of the window scrapes to it |
| WhatsAppClient.OlderElementsIgnored | whatsapp_client.py:90 | elements before the newest ten never matter |
| WhatsAppClient.ParseHeader | whatsapp_client.py:104-113 | an element parses iff its time and date part splits on `", "` into exactly two; the result has the four keys, the two parts of that split as time and date, the element's text, and the stripped sender taken from after the last `]` |
| WhatsAppClient.TimeDateOfHeader | whatsapp_client.py:104 | dropping the first character and cutting at the first `]` gives back `time, date` |
| WhatsAppClient.TimeDateSplits | whatsapp_client.py:105 | `time, date` splits into the time and the date when only the separator holds a comma |
| WhatsAppClient.SenderOfHeader | whatsapp_client.py:106 | the segment after the last `]`, cut at its first `:` and stripped, is the sender |
| WhatsAppClient.HeaderRoundTrip | whatsapp_client.py:103-113 | round trip: the header `[time, date] sender: ` parses back into that time, date and sender |
| WhatsAppClient.MissingSeparatorSkipped | whatsapp_client.py:105 | a header whose time and date part has no `", "` is skipped |
| WhatsAppClient.BmpOnly | whatsapp_client.py:153-155 | the output is no longer than the input and holds only BMP characters |
| WhatsAppClient.BmpOnlyAppend | whatsapp_client.py:153-155 | the filter works character by character, in order |
| WhatsAppClient.BmpOnlyChar | whatsapp_client.py:154 | one character is kept exactly when its code point is below 0x10000 |
| WhatsAppClient.BmpOnlyMembers | whatsapp_client.py:153-155 | a character is in the output iff it is in the input and in the BMP |
| WhatsAppClient.BmpOnlyKeepsBmp | whatsapp_client.py:153-155 | BMP-only text goes through unchanged |
| WhatsAppClient.BmpOnlyIdempotent | whatsapp_client.py:153-155 | filtering twice is filtering once |
| WhatsAppClient.EmojiDropped | whatsapp_client.py:153-155 | an emoji after a greeting is dropped and the greeting is kept |
| Messages.MakeMessage | whatsapp_client.py:108-113 | the dictionary has exactly the keys `sender`, `time`, `date` and `message`, each holding its value |
| Slices.SliceFrom | managers/chat_manager.py:24 | a negative-start slice is a suffix of the list, no longer than it |
| Slices.SliceLast | managers/chat_manager.py:24 | `ms[-n:]` with `n >= 1` is the last `min(n, |ms|)` entries |
| Slices.SliceMinusZero | managers/chat_manager.py:43-45 | `ms[-0:]` is the whole list |
| Strings.Strip | processors/response_processor.py:73 | the result is stripped and no longer than the input |
| Strings.StripIsTrim | processors/response_processor.py:73 | `strip()` keeps a slice of the text with only whitespace on either side |
| Strings.StripEmptyIff | processors/response_processor.py:43 | `strip()` is empty exactly for whitespace-only text |
| Strings.StripStripped | processors/response_processor.py:73 | `strip()` leaves stripped text unchanged |
| Strings.JoinEmptyIff | processors/response_processor.py:43 | joining non-empty items is empty exactly when there are none |
| Strings.Split | whatsapp_client.py:104 | `split` always gives at least one piece |
| Strings.SplitPieces | whatsapp_client.py:105 | no piece holds the separator, and there are several pieces exactly when the text holds it |
| Strings.JoinSplit | whatsapp_client.py:104-106 | round trip: joining the pieces of a split with the same separator restores the text |
| Strings.SplitOnce | whatsapp_client.py:104-106 | a character that occurs once splits the text into its two sides |
| Strings.FindFrom | whatsapp_client.py:104 | the leftmost occurrence at or after the start, or none at all |

## Left out

- Selenium: browser set-up, XPath lookups, waits, clicks, sleeps, the session cookies and the chat name. These are I/O against a browser. `get_messages` starts from the elements found, where a lookup that raises is an absent field.
- The outer `try` of `get_messages`, which returns `[]` when the element search itself fails. It guards the Selenium calls only.
- The call to the language model and the provider factory. These are a network client; the model's answer is the `response` parameter.
- The orchestration of `bot.py` and `MessageProcessor`, apart from its blank-reply rule (`ReplyOrRaw`). It is plumbing between the modelled parts.
- Configuration loading. `max_history` is a constructor parameter whose default is `DefaultMaxHistory`; the storage path and template path are not modelled.
- Directory creation in `ChatPersistenceManager.__init__` and the writing of the default template file in `_ensure_template_exists`. These are file I/O; the template read becomes the `template` parameter of `FormatPrompt`, `None` when it fails.
- Clocks: `datetime.now().isoformat()` and `time.strftime` are the `now` parameters.
- JSON encoding, path joining and the file system. A file is the value a JSON read of it gives, and the outcome of a write is the `outcome` parameter.
- ChatPersistence.ChatPersistenceManager.DeleteChatHistory: does not model a removal that raises partway through the delete-all loop and leaves the remaining files in place, because file-system errors are not modelled.
- ChatPersistence.ChatPersistenceManager.SaveChatHistory: models `messages` as a list only, as every caller passes one. A non-list value is not modelled.
- ChatPersistence.Load: a `messages` value that is not a list of messages, such as a string in a hand-edited file, is not modelled. A file whose JSON is not an object makes `data.get` raise, which is the `Unreadable` case.
- The XML parser is the `parse` parameter, returning `None` where `ET.fromstring` raises `ParseError`. The model has no XML grammar of its own, so what a given text parses to is a premise of the lemmas in `ExtractionExamples`.
- Python's general regex engine. The two patterns are modelled by scans proved to give the engine's leftmost, lazy matches.
- `[\w:]` in the single-root test is read on ASCII letters, digits, `_` and `:`. Python's Unicode `\w` also matches other letters.
- PromptManager.FormatPrompt: conversions and format modifiers such as `{x!r}` and `{x:>10}`, attribute and index access, and positional fields are not modelled. Such a field name is looked up as it stands and fails as an unknown key.
- ChatManagement.ChatManager.GetChatHistory: returns a value. The source returns the list stored in the map, so a caller that mutates it would change the history. Aliasing is not modelled.
- ChatManagement.ChatManager.AddMessages: the bound on the history is proved only for `maxHistory >= 1`. With `max_history` 0 the slice `[-0:]` keeps the whole list (`Slices.SliceMinusZero`), and with a negative one `[-m:]` drops the first `-m` entries; the model computes both but proves no bound for them.
- A `char` cannot be a surrogate, so a lone surrogate in page text, which Python keeps through the BMP filter, is not modelled.
- Logging and the per-chat locking of a multi-worker deployment. The code is single-threaded and has neither at the modelled level.
