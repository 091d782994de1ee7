# OpenFang: models and proofs

OpenFang runs agents and connects them to chat channels and HTTP clients. Most of it is I/O. This
project models the small stateful algorithms in between and proves what they guarantee over whole
runs:

- **Channel formatter** (`Text`, `Tokens`, `Escape`, `Links`, `Pairs`, `Emphasis`, `Inline`,
  `InlineTags`, `ShownText`, `BlocksShown`, `Slack`, `PlainText`, `StripInline`, `Telegram*`): Markdown to
  Telegram HTML, Slack mrkdwn and plain text by chained rewriting loops on strings that may grow; which
  lines a text has, and what a reader sees of the result.
- **Nesting of the Telegram tags** (`OnePass`, `Nesting`, `InlineMarks`, `InlineAnchors`,
  `InlineNesting`, `BoldCode`, `ItalicCounts`, `AnchorValues`, `InlineExamples`): the loops as one pass
  over the delimiters of a text, and what follows for the tags of the output.
- **Feishu connection** (`Dedup`, `Reassembly`, `AnyFragments`, `FeishuConnection`): reassembly of
  interleaved fragments, two half-evicting caches of seen ids, and the decision what is forwarded and
  acknowledged.
- **Stream chunker** (`Utf8`, `StreamChunker`, `ChunkerLines`, `ChunkerBreaks`, `ChunkerRuns`,
  `ChunkerFences`): a byte buffer cut at prioritized break points, with a forced closing of code fences.
- **Server-sent events** (`SseHandle`, `SsePublishers`, `SseChanges`, `SseFollower`, `Utf8Text`,
  `Utf8Encoding`, `Utf8Lossy`, `EventLines`, `SseReaders`, `ReadersAgree`): the bounded replay ring with change
  suppression, publishers that interleave, the task that serves one client with its queue, keepalives
  and snapshots, and the line parsers of the JavaScript and Python clients.
- **Channel bridge and WebSocket** (`SlidingWindow`, `RateLimiters`, `Dispatch`,
  `DispatchGrammar`, `DispatchContent`, `Debounce`): the one-minute limiters, the dispatcher as a producer
  of effects against an arbitrary environment, what it says to whom, and the loop that debounces streamed
  text.
- **Definitions** (`CanonicalLists`, `Delegation`, `Contract`, `ContractMeaning`, `AgentDefinition`,
  `DefinitionPipeline`, `DefinitionMeaning`): validation, normal form and the gates of the compiler, and
  which definitions say the same.
- **Stream deduplication** (`StreamDedup`): the window of recently sent texts.

Code that updates state or loops is a class or a method whose contract ties it to a specification
function; the theorems are about those functions. A *run* is a sequence of operations folded from
the left. Time is a number handed in with every step, bytes of text are `seq<byte>`, and strings are
sequences of Unicode scalar values. Ids are unbounded naturals.

What the outside decides is a parameter: event decoding and JSON parsing, the answers of the agents
and of the router, the lower case of a character, and the provider library that names drivers.

Some results are conditions under which a promise holds, because it does not hold without them:

- The id cache stays within its size exactly for sizes of two and more (`Dedup.BoundedIff`).
- A message with an empty part is never completed (`Reassembly.EmptyPartNeverCompletes`).
- Replay is exact exactly when the ring has room for an event (`SseHandle.ReplayExactIff`). With
  publishers that interleave, nothing is missed exactly when every insertion takes the smallest id
  that waits (`SsePublishers.MissesNothingIff`), which the code does not enforce: the id is taken
  before the lock.
- A client of the event stream can miss an event without being told exactly after a keepalive over
  an undelivered event, a snapshot that is older than the id sent with it, or a mark set past the
  last frame, or, once the server has started anew, with an id that the new log has reached by then
  (`SseFollower.LossIff`); the first happens with one event (`SseFollower.KeepaliveLoses`), the last with
  two (`SseFollower.RestartLoses`).
- Users of two channels can share a bucket of the limiter exactly when the name of one channel and a
  colon begin the name of the other (`RateLimiters.KeysCollideIff`).
- Users are held to their limit in every minute only if no check reads a clock behind that of an
  earlier one, which the code does not ensure; in general exactly in intervals that are by that
  lateness shorter (`SlidingWindow.BoundedIff`).
- Published fingerprints follow the calls of a key exactly when every publication takes the first call
  of its key that waits (`SseChanges.FaithfulIff`); otherwise a key may stay on an old state
  (`SseChanges.StaleStays`).
- The tags of the Telegram format balance, but they need not nest. Bold and code nest exactly when the
  numbers of double stars before every two paired backticks are equal or both even
  (`BoldCode.BoldCodeNestIff`); all tags nest exactly when no span is crossed and the italic ones are
  even in number (`InlineNesting.InlineNestsIff`); an italic tag stays open exactly for a parity of the
  stars (`ItalicCounts.ItalicStaysOpenIff`); and the anchors are whole exactly when the links are clean
  and nothing in an address becomes a tag (`AnchorValues.AnchorsWholeIff`).
- Chunks respect the maximum exactly when it is at least four, and flushing repeatedly ends exactly
  when the minimum or the maximum is at least five (`ChunkerRuns.ChunkSizeIff`, `DrainEndsIff`).
- The 100 ms bound of the debounce loop, and the lateness with which its timer is served, hold exactly
  within a day of its start (`Debounce.PromptIff`).
- Stripping for WeCom leaves stars exactly when two neighbouring stars have nothing between them that
  the other deletions keep (`StripInline.StripRemovesStarsIff`).
- Normalizing a definition twice is normalizing it once exactly when the public driver name is a
  fixed point (`DefinitionPipeline.NormalizeTwiceIff`, `IdempotentLibraryIff`), and the sorted
  delegation list forgets the order of a list exactly when no two kinds in it are spelled alike
  (`Delegation.OrderFreeIff`); in lists read from a file none ever are.
- The two clients agree exactly on texts whose characters are blanks to both or to neither
  (`ReadersAgree.AgreeIff`), and the Python client fails on a chunk that ends inside a character.

Where code and comments disagree, the code is modelled. The header comment of
`crates/openfang-api/src/stream_chunker.rs` (lines 4 and 10) promises never to split inside a code
fence. The break search on lines 77-103 does not look at fences that open and close inside the buffer:
a chunk splits one exactly when an odd number of fence lines stands before its cut
(`ChunkerFences.SplitsFenceIff`), and one push can bring that about for every maximum of at least three
(`ChunkerFences.FenceIsSplit`, `BlankLineSplits`). Nor is the fence state that of the text when a push
ends inside a line (`ChunkerFences.InFenceIff`, `FenceInPieces`).

## Model

| member | source | states |
|---|---|---|
| Escape.EscapeCons | crates/openfang-channels/src/formatter.rs:239-243 | the three replacement passes come to one entity per character; no pass escapes what another wrote |
| Escape.EscapeRoundTrip | crates/openfang-channels/src/formatter.rs:239-243 | unescaping an escaped text gives it back |
| Escape.EscapeHasNoBrackets | crates/openfang-channels/src/formatter.rs:239-243 | no angle bracket survives escaping |
| Links.RewriteLinks | crates/openfang-channels/src/formatter.rs:165-185 | the loop ends, although the text may grow, with the specified rewriting |
| Links.RewriteOneDropsBracket | crates/openfang-channels/src/formatter.rs:165-185 | every rewrite removes a `[`, the measure of the loop |
| Links.RewriteOneCount | crates/openfang-channels/src/formatter.rs:165-185 | a rewrite neither loses nor adds stars and backticks |
| Links.RewriteIsLinkFree | crates/openfang-channels/src/formatter.rs:165-185 | in the result no `[` is followed by `](` and then `)` |
| Links.RewriteFixpoint | crates/openfang-channels/src/formatter.rs:165-185 | the loop changes a text exactly when it has a link |
| Links.LinkRound | crates/openfang-channels/src/formatter.rs:165-185 | for every text with a link, one round keeps what is around the next one, which becomes its caption and address in the order of the format |
| Pairs.RewritePairs | crates/openfang-channels/src/formatter.rs:188-212 | the bold and code loops end with the specified rewriting |
| Pairs.RewriteIsPairFree | crates/openfang-channels/src/formatter.rs:188-212 | at most one delimiter is left |
| Inline.RenderItalic | crates/openfang-channels/src/formatter.rs:214-236 | the star loop replaces exactly the isolated stars, opening and closing in turn |
| Inline.RenderInlineMarkdown | crates/openfang-channels/src/formatter.rs:161-237 | escape, links, bold, code and italic in this order |
| Tokens.Vocabulary.IntactCut | crates/openfang-channels/src/formatter.rs:165-212 | cutting a text at a delimiter leaves every tag on both sides whole, even when a link starts inside an earlier address |
| InlineTags.LinksIntact | crates/openfang-channels/src/formatter.rs:165-185 | after the link pass every marker begins a whole token |
| InlineTags.ItalicIntact | crates/openfang-channels/src/formatter.rs:214-236 | the italic pass keeps every token whole and adds only whole ones |
| InlineTags.InlineIntact | crates/openfang-channels/src/formatter.rs:161-237 | for every input, each `<` of the output begins a whole token, a tag or the opening of an anchor up to its address, and each `&` a whole entity |
| InlineTags.InlineBalanced | crates/openfang-channels/src/formatter.rs:161-237 | in every output a, b and code open as often as they close |
| OnePass.InlineIsPass | crates/openfang-channels/src/formatter.rs:187-236 | the bold, code and italic loops in a row come to one pass over the text after the links, from left to right |
| OnePass.RewriteIsAlternate | crates/openfang-channels/src/formatter.rs:188-212 | a delimiter loop replaces its delimiters in turn by opening and closing, all but an odd last one |
| Nesting.NestsIff | crates/openfang-channels/src/formatter.rs:161-237 | tags nest exactly when those of each kind match, in the whole and inside every span |
| InlineMarks.ReadPass | crates/openfang-channels/src/formatter.rs:187-236 | the tags read off the output are those that the delimiters of the text after the links become |
| InlineAnchors.AnchorsMatch | crates/openfang-channels/src/formatter.rs:165-185 | for every text the anchors match among themselves, even when a link begins in the address of another |
| InlineNesting.InlineNestsIff | crates/openfang-channels/src/formatter.rs:161-237 | for every text, all tags of the output nest exactly when the italic ones are even in number and inside every span the tags of each kind match, by their numbers up to its ends |
| BoldCode.BoldCodeNestIff | crates/openfang-channels/src/formatter.rs:187-212 | bold and code nest exactly when, in the text after the links, the numbers of double stars before every two paired backticks, an odd last one not counted, are equal or both even |
| BoldCode.BoldCodeNestInPlain | crates/openfang-channels/src/formatter.rs:187-212 | the same on the text itself when it has no link |
| ItalicCounts.TagCounts | crates/openfang-channels/src/formatter.rs:187-236 | how often each bold, code and italic tag comes out, by the stars and backticks of the text after the links |
| ItalicCounts.ItalicStaysOpenIff | crates/openfang-channels/src/formatter.rs:214-236 | an italic tag stays open exactly for an odd number of stars after the links, or an even one if the double that is left over has a third star |
| ItalicCounts.ItalicStaysOpenInPlain | crates/openfang-channels/src/formatter.rs:214-236 | the same on the text itself when it has no link |
| AnchorValues.LinksWholeIff | crates/openfang-channels/src/formatter.rs:165-185 | after the link loop every anchor has an address without quote or angle bracket and the end of its tag, exactly when no address the loop takes has one and no link begins in one |
| AnchorValues.AnchorsWholeIff | crates/openfang-channels/src/formatter.rs:161-237 | in the output, exactly when moreover no star or backtick in an address becomes a tag |
| InlineExamples.LinkInAddressBreaks | crates/openfang-channels/src/formatter.rs:165-185 | a link in the address of another, whose anchor is cut off |
| InlineExamples.BoldInAddressBreaks | crates/openfang-channels/src/formatter.rs:187-199 | bold in an address, whose anchor is cut off |
| InlineExamples.AnchorMayCross | crates/openfang-channels/src/formatter.rs:165-199 | a bold span that begins in a caption and ends after the link |
| InlineTags.TagsMayCross | crates/openfang-channels/src/formatter.rs:188-212 | a text whose bold and code tags cross |
| Slack.MarkdownToSlackMrkdwn | crates/openfang-channels/src/formatter.rs:289-327 | both loops of the Slack format end with the specified text |
| Slack.LinksKeepDoubles | crates/openfang-channels/src/formatter.rs:303-324 | the link pass keeps the number of double stars: it cuts and joins no run |
| Slack.PairIffTwoDoubles | crates/openfang-channels/src/formatter.rs:292-301 | the bold loop acts exactly when two double stars fit side by side |
| Slack.BoldLeavesAtMostOne | crates/openfang-channels/src/formatter.rs:292-301 | at most one double star is left |
| Slack.SlackIdempotent | crates/openfang-channels/src/formatter.rs:289-327 | formatting twice is formatting once |
| Slack.SlackFixpoint | crates/openfang-channels/src/formatter.rs:289-327 | exactly which texts are left alone |
| Emphasis.DropIsolatedStars | crates/openfang-channels/src/formatter.rs:516-564 | the character loop drops exactly the isolated stars |
| Emphasis.SparseIffAllIsolated | crates/openfang-channels/src/formatter.rs:516-564 | no two stars are adjacent exactly when every star is isolated |
| Emphasis.DropFromKeepsRuns | crates/openfang-channels/src/formatter.rs:516-564 | a star survives exactly next to another |
| Emphasis.RemovePairs | crates/openfang-channels/src/formatter.rs:516-564 | removing double stars leaves at most one star of every run |
| PlainText.MarkdownToPlain | crates/openfang-channels/src/formatter.rs:516-564 | the plain-text loops end with the specified text |
| PlainText.PlainIsOneFilter | crates/openfang-channels/src/formatter.rs:516-564 | for every text, the passes together are the link rewrite of the text without `*` and backticks |
| PlainText.PlainIsClean | crates/openfang-channels/src/formatter.rs:516-564 | the result has no star, backtick or link and is a fixed point |
| StripInline.StripImages | crates/openfang-channels/src/formatter.rs:393-410 | the image loop ends with the specified text |
| StripInline.ImagesGone | crates/openfang-channels/src/formatter.rs:393-410 | nothing that reads as an image is left |
| StripInline.ImageRound | crates/openfang-channels/src/formatter.rs:393-410 | for every text with an image, one round keeps what is around the next one, which becomes its address in parentheses after its alternative text, or its address alone |
| StripInline.StripAutolinks | crates/openfang-channels/src/formatter.rs:426-439 | the autolink loop ends with the specified text |
| StripInline.AutolinkRound | crates/openfang-channels/src/formatter.rs:426-439 | one round takes the angles off the first piece in angles if it begins with http://, https:// or mailto:, and else the loop stops there |
| StripInline.StripInlineMarkdown | crates/openfang-channels/src/formatter.rs:392-458 | all passes in their order |
| StripInline.StripRemovesStarsIff | crates/openfang-channels/src/formatter.rs:392-458 | stars are left exactly when, in the text without links and double stars, two neighbouring stars enclose nothing that the deletions of underscores, tildes and backticks keep |
| StripInline.StripLeavesStars | crates/openfang-channels/src/formatter.rs:392-458 | a text whose deletions bring two stars together |
| TelegramBlocks.TestsExclusive | crates/openfang-channels/src/formatter.rs:32-159 | no line passes two of the line tests |
| TelegramKinds.KindIff | crates/openfang-channels/src/formatter.rs:32-159 | which lines are blank, fences, headings, quotes, items or numbered items, character by character |
| TelegramKinds.FencesMeaning | crates/openfang-channels/src/formatter.rs:47-63 | a code block opens with three backticks or tildes, none of its lines begins with three of the same, and the line that closes it does |
| TelegramLines.NormalizeIsUnified | crates/openfang-channels/src/formatter.rs:33 | the two replacements read the line ends from left to right, each of the three as one newline |
| TelegramLines.UnifiedMeaning | crates/openfang-channels/src/formatter.rs:33 | no carriage return is left, there is a newline for every line end, and every other character is kept in order |
| TelegramLines.LinesMeaning | crates/openfang-channels/src/formatter.rs:35 | no line holds a newline, and the lines joined by newlines are the text up to one final newline |
| TelegramLines.LinesUnique | crates/openfang-channels/src/formatter.rs:35 | no other lines are |
| TelegramLines.SourcesAreText | crates/openfang-channels/src/formatter.rs:32-159 | for every text, the sources of all blocks put together are the text that came in |
| TelegramLoop.ReadCode | crates/openfang-channels/src/formatter.rs:47-63 | the code loop takes the lines up to the first closing fence |
| TelegramLoop.ReadQuote | crates/openfang-channels/src/formatter.rs:72-89 | the quote loop takes a maximal run of quote lines |
| TelegramLoop.ReadBullets | crates/openfang-channels/src/formatter.rs:91-109 | the bullet loop takes a maximal run of items and one blank line after it |
| TelegramLoop.ReadNumbers | crates/openfang-channels/src/formatter.rs:111-135 | the number loop takes a maximal run of items and numbers them from one |
| TelegramLoop.ReadProse | crates/openfang-channels/src/formatter.rs:137-155 | the paragraph loop takes a maximal run of other lines |
| TelegramLoop.ReadBlock | crates/openfang-channels/src/formatter.rs:38-156 | one turn of the loop renders the first block and moves past exactly its lines |
| TelegramLoop.MarkdownToTelegramHtml | crates/openfang-channels/src/formatter.rs:32-159 | the loop ends and renders the blocks in order |
| TelegramGrammar.ParseIsSegmentation | crates/openfang-channels/src/formatter.rs:32-159 | every line is in exactly one well-formed, maximal block, in order |
| TelegramGrammar.SegmentationUnique | crates/openfang-channels/src/formatter.rs:32-159 | there is no other such segmentation |
| TelegramGrammar.ParseKeepsLines | crates/openfang-channels/src/formatter.rs:32-159 | the blocks put back together are the lines |
| TelegramTags.NumberItemsRenumber | crates/openfang-channels/src/formatter.rs:111-135 | item k reads as a numbered item with number k + 1 and the content of its line |
| TelegramTags.DecimalRoundTrip | crates/openfang-channels/src/formatter.rs:273-287 | a written number reads back as itself |
| TelegramTags.CleanBlock | crates/openfang-channels/src/formatter.rs:32-159 | every rendered block has only whole tokens and balanced tags |
| TelegramTags.TelegramClean | crates/openfang-channels/src/formatter.rs:32-159 | for every Markdown text the document has only whole tokens and entities, and a, b, code, pre and blockquote balance |
| ShownText.InlineShown | crates/openfang-channels/src/formatter.rs:161-237 | a reader of a text without links sees the text without the stars and backticks that became tags |
| ShownText.ContentShown | crates/openfang-channels/src/formatter.rs:161-237 | every other character is seen, in order; a text without stars and backticks is seen as it is |
| BlocksShown.CodeShown | crates/openfang-channels/src/formatter.rs:47-63 | a code block shows its lines as they were written, whatever they hold |
| BlocksShown.HeadingShown | crates/openfang-channels/src/formatter.rs:65-70 | a heading of one to six hashes shows what follows them, trimmed |
| BlocksShown.QuoteShown | crates/openfang-channels/src/formatter.rs:72-89 | a quoted line shows what follows its mark |
| BlocksShown.BulletShown | crates/openfang-channels/src/formatter.rs:91-109 | a list item shows a bullet and what follows its mark |
| BlocksShown.NumberShown | crates/openfang-channels/src/formatter.rs:111-135 | a numbered item shows its number in the list and what follows the one it was written with |
| BlocksShown.ProseShown | crates/openfang-channels/src/formatter.rs:137-155 | a paragraph shows its trimmed lines |
| BlocksShown.ListsShown | crates/openfang-channels/src/formatter.rs:72-135 | quotes and lists show their lines below each other |
| BlocksShown.DocumentShown | crates/openfang-channels/src/formatter.rs:158 | a document shows its blocks in order, a blank line apart |
| Dedup.DedupCache.CheckAndInsert | crates/openfang-channels/src/feishu.rs:148-174 | the list is drained by half when full, then grows by the new id |
| Dedup.RunKeepsInv | crates/openfang-channels/src/feishu.rs:148-174 | in every run the list is a duplicate-free suffix of the log, within its size |
| Dedup.Retention | crates/openfang-channels/src/feishu.rs:148-174 | an id is suppressed while at most ceil(max / 2) others were let through after it |
| Dedup.LogSpaced | crates/openfang-channels/src/feishu.rs:148-174 | equal ids in the log are more than ceil(max / 2) apart |
| Dedup.LogHasArrivals | crates/openfang-channels/src/feishu.rs:148-174 | every id that arrived is let through at least once |
| Dedup.BoundedIff | crates/openfang-channels/src/feishu.rs:148-174 | the list stays within its size in every run exactly for sizes of two and more |
| Dedup.RetentionIsTight | crates/openfang-channels/src/feishu.rs:148-174 | for every size of at least two and any max + 1 different arrivals, an id with one more behind it than the bound allows is forgotten |
| Reassembly.Reassembler.CombinePayload | crates/openfang-channels/src/feishu.rs:1004-1045 | one fragment changes the table and returns a payload as specified |
| Reassembly.HeaderMeaning | crates/openfang-channels/src/feishu.rs:983-988 | a header has the value of the first header with its key, and none exactly when no header has it |
| Reassembly.HeaderNumber | crates/openfang-channels/src/feishu.rs:1009-1018 | a numeric header counts by its digits, with a plus sign or without, if they are worth less than two to the power of 64, and else as the default |
| Reassembly.CompletionExact | crates/openfang-channels/src/feishu.rs:1004-1045 | for any interleaving, order and repetition, a payload comes out exactly when all parts since the last completion have arrived and none is empty; it is the parts in order; other entries are untouched |
| Reassembly.InterleavingIrrelevant | crates/openfang-channels/src/feishu.rs:1004-1045 | a message's entry is what its own fragments alone would have built |
| Reassembly.OutputIrrelevant | crates/openfang-channels/src/feishu.rs:1004-1045 | so is what a fragment returns |
| Reassembly.EmptyPartNeverCompletes | crates/openfang-channels/src/feishu.rs:1028-1045 | a message with an empty part is never delivered |
| Reassembly.RoundTrip | crates/openfang-channels/src/feishu.rs:1004-1045 | splitting and sending once delivers the message exactly when no part is empty |
| AnyFragments.TableIsLatest | crates/openfang-channels/src/feishu.rs:1004-1045 | for any fragments at all, a message's entry is the latest content of each part since it was last completed or its number of parts last changed |
| AnyFragments.OutputIsLatest | crates/openfang-channels/src/feishu.rs:1025-1045 | a payload comes out exactly when none of these is empty, and is made of them in order |
| AnyFragments.ResendReplaces | crates/openfang-channels/src/feishu.rs:1020-1030 | a resend with another content replaces the part, one with another number of parts drops all that was collected |
| FeishuConnection.Connection.HandleDataFrame | crates/openfang-channels/src/feishu.rs:830-894 | table, caches and effects after one data frame, and whether the connection lives on |
| FeishuConnection.FrameEffects | crates/openfang-channels/src/feishu.rs:830-894 | a completed event is acknowledged once, with 500 if it does not parse and else with 200, unless its message is new and the receiver is gone; a message is forwarded exactly when it is new to both caches and the receiver is there, before the acknowledgement |
| FeishuConnection.ForwardedOnce | crates/openfang-channels/src/feishu.rs:830-894 | in every run, over any number of connections, an id forwarded twice has more than 500 fresh ids in between |
| FeishuConnection.RedeliveryOnlyAcked | crates/openfang-channels/src/feishu.rs:830-894 | a message redelivered after at most 500 fresh message ids is only acknowledged |
| FeishuConnection.RedeliveredEventOnlyAcked | crates/openfang-channels/src/feishu.rs:830-894 | an event redelivered after at most 500 fresh event ids is only acknowledged, and no cache changes |
| FeishuConnection.CompletedIff | crates/openfang-channels/src/feishu.rs:830-1045 | in every run a frame completes an event exactly when it is whole, and then its own payload is decoded, or brings the last missing part since that message was last completed on this connection, and then the message that was sent is |
| FeishuConnection.PayloadsAreMeant | crates/openfang-channels/src/feishu.rs:830-1045 | in every run, the payloads given to the decoder are, in order, the own payload of each whole frame and for each completion the message that was sent |
| FeishuConnection.AcksAreCompletions | crates/openfang-channels/src/feishu.rs:830-1045 | in every run, while the receiver is there, there is one acknowledgement for each such completion |
| Utf8.ValidCut | crates/openfang-api/src/stream_chunker.rs:56-160 | cutting at a boundary keeps both sides well-formed (RFC 3629 section 4) |
| Utf8.BoundaryWithin | crates/openfang-api/src/stream_chunker.rs:105-113 | a boundary is at most three bytes back |
| ChunkerLines.TrimIsTrim | crates/openfang-api/src/stream_chunker.rs:36 | trimming the bytes of a line is trimming its text: white space is the same in both |
| ChunkerLines.FenceLineIff | crates/openfang-api/src/stream_chunker.rs:36-37 | a line is a fence line exactly if its text, trimmed, begins with three backticks |
| ChunkerLines.PiecesAreLines | crates/openfang-api/src/stream_chunker.rs:33 | a push is read in pieces that end with their newline, all but perhaps the last, and hold no other |
| ChunkerLines.PiecesUnique | crates/openfang-api/src/stream_chunker.rs:33 | and in no other way |
| StreamChunker.Chunker.PushText | crates/openfang-api/src/stream_chunker.rs:32-51 | buffer and fence state after a push |
| StreamChunker.FindLast | crates/openfang-api/src/stream_chunker.rs:146-160 | the last occurrence inside the range, or none |
| StreamChunker.FindBreak | crates/openfang-api/src/stream_chunker.rs:77-103 | the break of the first pattern that has one |
| StreamChunker.FindForcedBreak | crates/openfang-api/src/stream_chunker.rs:105-113 | the last boundary up to the maximum, or everything |
| StreamChunker.Chunker.Flush | crates/openfang-api/src/stream_chunker.rs:56-120 | the chunk and the state after one attempt |
| StreamChunker.Chunker.FlushAll | crates/openfang-api/src/stream_chunker.rs:123-129 | everything buffered comes out |
| ChunkerRuns.NothingLost | crates/openfang-api/src/stream_chunker.rs:32-129 | in every run, chunks and buffer are the pushed text with one seam for each forced fence closing, and exactly the text without one |
| ChunkerRuns.FenceIsParity | crates/openfang-api/src/stream_chunker.rs:32-51 | a fence is open exactly after an odd number of fence lines, counted in the pieces of each push |
| ChunkerFences.InFenceIff | crates/openfang-api/src/stream_chunker.rs:32-51 | in every run a fence is open exactly when the fence lines of the pushed text and the misread cuts between pushes are odd in number together |
| ChunkerFences.CutReadsIff | crates/openfang-api/src/stream_chunker.rs:32-51 | a cut between two pushes is misread exactly when it falls inside a line whose two parts do not together read as the line does |
| ChunkerFences.InFenceOfLines | crates/openfang-api/src/stream_chunker.rs:32-51 | when every push begins a line, a fence is open exactly after an odd number of fence lines of the text |
| ChunkerFences.FenceInPieces | crates/openfang-api/src/stream_chunker.rs:32-51 | an opening fence that arrives in two pushes and is not seen |
| ChunkerRuns.CutsAtBoundaries | crates/openfang-api/src/stream_chunker.rs:56-129 | in every run of well-formed pushes every chunk and the buffer are well-formed |
| ChunkerRuns.ChunkSizeIff | crates/openfang-api/src/stream_chunker.rs:76-117 | in every run of well-formed pushes every chunk from outside a fence is non-empty and within the maximum, exactly for maxima of at least four |
| ChunkerBreaks.FindLastMeaning | crates/openfang-api/src/stream_chunker.rs:146-160 | in well-formed text, moving the range to character boundaries loses no occurrence of an ASCII pattern: the last one in the range is found, and none only if there is none |
| ChunkerBreaks.WaitsIff | crates/openfang-api/src/stream_chunker.rs:56-120 | a well-formed text gives a chunk exactly when it has the minimum and either has the maximum or, outside a fence, one of the five breaks occurs in it between the minimum and the maximum |
| ChunkerBreaks.CutsAtBestBreak | crates/openfang-api/src/stream_chunker.rs:77-103 | the chunk ends with the last occurrence of the first of the five breaks that occurs in that range |
| ChunkerBreaks.BreakOrder | crates/openfang-api/src/stream_chunker.rs:77-103 | the breaks are, best first, a blank line, a line end, and a full stop, an exclamation mark and a question mark with a space |
| ChunkerBreaks.CutsAtLimit | crates/openfang-api/src/stream_chunker.rs:105-113 | where none occurs in a text that has the maximum, the chunk ends at the last character boundary up to the maximum, at most three bytes before it, or is the whole text if there is none after its start |
| ChunkerFences.SplitsFenceIff | crates/openfang-api/src/stream_chunker.rs:76-120 | for every well-formed buffer outside a fence, a chunk leaves a fence open exactly when an odd number of fence lines stands before its cut |
| ChunkerFences.PlainIsNotSplit | crates/openfang-api/src/stream_chunker.rs:76-120 | in every run, a buffer outside a fence that holds no fence line is not split inside one |
| ChunkerFences.FenceIsSplit | crates/openfang-api/src/stream_chunker.rs:105-113 | for every minimum and every maximum from three on, a push of a closed fence that is then split |
| ChunkerFences.BlankLineSplits | crates/openfang-api/src/stream_chunker.rs:77-103 | a closed fence with a blank line that is split there although it fits |
| ChunkerRuns.DrainedIsShort | crates/openfang-api/src/stream_chunker.rs:56-120 | flushing until nothing comes ends with less than a minimum or a maximum |
| ChunkerRuns.DrainEndsIff | crates/openfang-api/src/stream_chunker.rs:56-75 | in no run does flushing repeat a state, exactly when the minimum or the maximum is at least five |
| SseHandle.BoundedSseHandle.PublishEvent | crates/openfang-api/src/sse.rs:67-90 | id, ring and new state of a publish |
| SseHandle.BoundedSseHandle.PublishChanged | crates/openfang-api/src/sse.rs:92-115 | publishes exactly on a new fingerprint for the key |
| SseHandle.BoundedSseHandle.Replays | crates/openfang-api/src/sse.rs:119-154 | what a client is sent on connecting |
| SseHandle.RunKeepsInv | crates/openfang-api/src/sse.rs:67-115 | the ring is the end of the log, ids are 1, 2, 3, … without gaps |
| SseHandle.ReplayExact | crates/openfang-api/src/sse.rs:119-154 | a reset exactly when event k + 1 was evicted, else exactly the events after k in order |
| SseHandle.ReplayExactIff | crates/openfang-api/src/sse.rs:119-154 | this holds in every run and for every id exactly for capacities of at least one |
| SseHandle.AnswerToAny | crates/openfang-api/src/sse.rs:119-154 | the answer to every id, handed out or not: a client with an id is told to start over exactly while nothing has been published, and afterwards exactly when its id is before the ring; with an id that is not below the latest it is served on without an event and without being told |
| SseHandle.AnswerToNone | crates/openfang-api/src/sse.rs:119-154 | a client without an id is never told to start over and is replayed nothing |
| SseFollower.CarefulKeepsGood | crates/openfang-api/src/routes.rs:8483-8702 | in every run without a risky turn, with any reconnections, restarts of the server, queueing and lagging, the client has a stretch of the log without a gap since it was last told to start over, and its last id is the last it has (section 9.2.4 of the WHATWG HTML standard) |
| SseFollower.LossIff | crates/openfang-api/src/routes.rs:8483-8702 | a run can be continued without a further risky turn to a silent gap exactly when it has a risky turn: a keepalive over an undelivered event, a snapshot older than its id, a mark past the last frame, or a client of an earlier process that is not told to start over |
| SseFollower.KeepaliveLoses | crates/openfang-api/src/routes.rs:8575-8583 | a first connection with one event and a keepalive before it is delivered, which can be continued to a silent gap |
| SseFollower.RestartLoses | crates/openfang-api/src/routes.rs:8483-8702 | for every ring with room for an event, a run in which the server starts anew and a client of the old one is served on and then misses an event in silence |
| SseHandle.ChangesOnly | crates/openfang-api/src/sse.rs:92-115 | with calls one after another, a key's published fingerprints are its calls with equal neighbours collapsed, under any interleaving of keys |
| SseChanges.AcceptedIsCollapsed | crates/openfang-api/src/sse.rs:98-112 | with storing and publishing as separate steps, the calls of a key that are not suppressed are its calls with equal neighbours collapsed |
| SseChanges.FaithfulIff | crates/openfang-api/src/sse.rs:98-115 | at every moment each key has been published in the order its calls were accepted, exactly when every publication takes the first call of its key that waits |
| SseChanges.SettledIsCurrent | crates/openfang-api/src/sse.rs:98-115 | then, once all have published, the last that was sent for a key is what is stored |
| SseChanges.StaleStays | crates/openfang-api/src/sse.rs:98-115 | two calls that publish in the opposite order, after which the newer state is suppressed |
| SseHandle.SuppressedIsFree | crates/openfang-api/src/sse.rs:92-115 | a suppressed call takes no id |
| SsePublishers.InterleavedInv | crates/openfang-api/src/sse.rs:67-90 | with id allocation and insertion as separate steps, ids stay unique and the ring bounded |
| SsePublishers.InOrderIsSerial | crates/openfang-api/src/sse.rs:67-90 | while every insertion takes the smallest id that waits, the ring is that of a serial publisher of the same events |
| SsePublishers.NeverOvertakenIff | crates/openfang-api/src/sse.rs:67-90 | no event ever stands in the ring above an id that is still to come, exactly for these interleavings |
| SsePublishers.MissesNothingIff | crates/openfang-api/src/sse.rs:67-154 | at no moment of the run can a client reconnect with an id it saw and silently miss an event, exactly for these interleavings |
| SsePublishers.InterleavingLosesOne | crates/openfang-api/src/sse.rs:67-154 | a run of two publishers in which a client silently misses an event |
| SseReaders.StreamJavaScript | sdk/javascript/index.js:83-104 | for every chunking of any bytes, the events are those of the complete lines of the whole text, malformed bytes replaced, up to the first [DONE] |
| SseReaders.StreamPython | sdk/python/openfang_client.py:95-113 | the same, up to the first chunk that does not decode by itself, and whether the reader fails there |
| EventLines.SplitMeaning | sdk/javascript/index.js:88-90 | lines and rest make up the text, and none has a newline |
| EventLines.ClassifyBrought | sdk/javascript/index.js:91-103 | a line of "data: " and data, up to blanks, stops the stream for [DONE], else yields the value read from the data or the data as it is |
| EventLines.ClassifyElse | sdk/javascript/index.js:91-103 | every other line is skipped |
| EventLines.ReadMeaning | sdk/javascript/index.js:91-103 | the events of some lines are those of all lines before the first that says stop |
| EventLines.EventsGrow | sdk/javascript/index.js:83-104 | the incremental step from a text to a longer one |
| SseReaders.PythonReadsAll | sdk/python/openfang_client.py:95-101 | a well-formed stream is read in full exactly when no chunk ends inside a character |
| ReadersAgree.AgreeIff | sdk/javascript/index.js:91-103 | both clients yield the same events on all texts over an alphabet exactly when its characters are blanks to both or to neither |
| ReadersAgree.ChunkingsAgree | sdk/python/openfang_client.py:95-113 | one stream cut in two ways gives the same events in both clients |
| Utf8Text.TextGrows | sdk/javascript/index.js:81-87 | decoding with the left-over bytes continues the text of what came before |
| Utf8Encoding.DecodeEncode | sdk/javascript/index.js:81-87 | what was encoded reads back as it was (section 3 of RFC 3629) |
| Utf8Encoding.EncodeDecode | sdk/javascript/index.js:81-87 | what was decoded is written back as it was |
| Utf8Lossy.LossyGrows | sdk/javascript/index.js:81-87 | so does decoding that replaces what is malformed (section 4.1.1 of the WHATWG Encoding standard) |
| Utf8Lossy.LossyOfValid | sdk/javascript/index.js:81-87 | nothing is replaced in well-formed text |
| Utf8Lossy.BegunMeaning | sdk/javascript/index.js:81-87 | what is replaced by one character is the longest piece that more bytes could have completed to a character (section 3.9 of the Unicode Standard) |
| Utf8Text.AllValidIff | sdk/python/openfang_client.py:96-100 | chunks decode one by one exactly when every cut is at a boundary |
| SlidingWindow.RetainRecent | crates/openfang-channels/src/bridge.rs:339-344 | exactly the entries younger than a minute stay |
| SlidingWindow.RunKeepsInv | crates/openfang-channels/src/bridge.rs:328-354 | while no check is a minute behind an earlier one, the bucket is the full log pruned at the latest time |
| SlidingWindow.DecisionExact | crates/openfang-channels/src/bridge.rs:328-354 | then a message is rejected exactly when the limit was reached in the minute before the latest time, by the full log |
| SlidingWindow.NeverMoreThanMax | crates/openfang-channels/src/bridge.rs:328-354 | if no check is more than a lateness behind an earlier one, no interval that is by this lateness shorter than a minute has more admissions than the limit |
| SlidingWindow.BoundedIff | crates/openfang-channels/src/bridge.rs:328-354 | limits of two and more are kept in all intervals of a length, in all runs of a lateness, exactly when both together are a minute at most |
| RateLimiters.ChannelRateLimiter.CheckMessage | crates/openfang-channels/src/bridge.rs:328-354 | one user's bucket decides and changes, others stay |
| RateLimiters.ConnectionLimiter.Admit | crates/openfang-api/src/ws.rs:351-364 | the per-connection window is the same algorithm |
| RateLimiters.BucketsIndependent | crates/openfang-channels/src/bridge.rs:328-354 | a user's bucket is what that user's messages alone would make it |
| RateLimiters.VerdictIndependent | crates/openfang-channels/src/bridge.rs:328-354 | a verdict depends on the user's own history only, and without a limit the message is let through |
| RateLimiters.UserNeverMoreThanMax | crates/openfang-channels/src/bridge.rs:328-354 | the same bound for each user among any others, for checks of that lateness |
| RateLimiters.KeysApart | crates/openfang-channels/src/bridge.rs:338 | keys tell users apart within a channel, and across channels whose names have no colon |
| RateLimiters.KeysCollideIff | crates/openfang-channels/src/bridge.rs:338 | two channels have users that share a bucket exactly when the name of one and a colon begin the name of the other |
| Dispatch.Dispatcher.RouteMessage | crates/openfang-channels/src/bridge.rs:861-899 | the resolved agent, else the assistant, else the first agent, else a refusal |
| Dispatch.Dispatcher.CallAgent | crates/openfang-channels/src/bridge.rs:946-1083 | a call, and on "agent not found" at most one retry with the re-resolved agent |
| Dispatch.Dispatcher.DispatchDirect | crates/openfang-channels/src/bridge.rs:861-1084 | the effects of the standard path |
| Dispatch.Dispatcher.DispatchBroadcast | crates/openfang-channels/src/bridge.rs:791-859 | the effects of a broadcast |
| Dispatch.Dispatcher.DispatchMessage | crates/openfang-channels/src/bridge.rs:616-1084 | the effects of every branch, for every environment |
| DispatchGrammar.EveryTraceAccepted | crates/openfang-channels/src/bridge.rs:616-1084 | every dispatch follows the effect grammar, a small automaton |
| DispatchGrammar.OneResponseOneDelivery | crates/openfang-channels/src/bridge.rs:616-1084 | at most one response and one delivery record, and the record is the last effect |
| DispatchGrammar.CallsArePermitted | crates/openfang-channels/src/bridge.rs:616-1084 | no call before authorization succeeded |
| DispatchGrammar.AtMostTwoCalls | crates/openfang-channels/src/bridge.rs:946-1083 | at most two calls on the standard path |
| DispatchGrammar.SecondCallIsRetry | crates/openfang-channels/src/bridge.rs:576-611 | a second call goes to the agent just re-resolved, after "agent not found" |
| DispatchGrammar.ThinkingIsResolved | crates/openfang-channels/src/bridge.rs:940-1083 | Done and Error come only after Thinking, exactly one of them does, and the record at the end has the matching success |
| DispatchGrammar.DispatchSafe | crates/openfang-channels/src/bridge.rs:616-1084 | all of these, the retry rule included, for every message and environment |
| DispatchContent.PayloadsMeant | crates/openfang-channels/src/bridge.rs:676-964 | for every message and environment, every call carries the described text; before it stands the sender in brackets in the first call of the standard path and nothing in the retry and in a broadcast; content blocks are handed on as they are |
| DispatchContent.PathIff | crates/openfang-channels/src/bridge.rs:616-899 | one agent is chosen exactly when the message is neither ignored, limited nor a command, has content blocks or no broadcast targets, and there is an agent |
| DispatchContent.RouteMeant | crates/openfang-channels/src/bridge.rs:861-899 | which agent is chosen; a fallback becomes the default of the sender, and without an agent one fixed answer is all |
| DispatchContent.CallsToOne | crates/openfang-channels/src/bridge.rs:901-1084 | the calls to one agent, their texts and replies: none if access is denied or an automatic reply is given, a second one exactly if the first did not find its agent and the default is found by name |
| DispatchContent.OutcomeMeant | crates/openfang-channels/src/bridge.rs:901-1084 | which permits, reactions, responses, delivery records and re-resolutions a trace on the standard path holds, and no others |
| DispatchContent.CallsToMany | crates/openfang-channels/src/bridge.rs:791-859 | a broadcast calls every running target once with the text as it is, in order |
| DispatchContent.BroadcastMeant | crates/openfang-channels/src/bridge.rs:791-859 | its answer is one line for each target whose reply is in, a blank line apart, and it has no reactions, records or routing |
| DispatchContent.SilentIff | crates/openfang-channels/src/bridge.rs:638-680 | a message is passed over in silence exactly by the policy of its channel |
| DispatchContent.CommandMeant | crates/openfang-channels/src/bridge.rs:770-789 | a text is a command exactly if it is a slash and a known name, up to the first space; it is run with that name and the words after it |
| DispatchContent.NoCommand | crates/openfang-channels/src/bridge.rs:682-768 | other texts and contents are not commands; bot commands run as they are, and a limited sender gets the refusal of the limiter |
| DispatchContent.SplitOfSpread | crates/openfang-channels/src/bridge.rs:773-777 | words are split the same way whatever blanks are around them |
| DispatchContent.SplitMeaning | crates/openfang-channels/src/bridge.rs:773-777 | every text is its words with blanks around them |
| DispatchContent.NotFoundIff | crates/openfang-channels/src/bridge.rs:576-583 | an error asks for a re-resolution by name exactly when it says in any case of letters that the agent was not found |
| Debounce.StreamTask.Handle | crates/openfang-api/src/ws.rs:529-621 | state and frames after one turn of the loop |
| Debounce.StreamTask.FlushTextBuffer | crates/openfang-api/src/ws.rs:1097-1114 | the buffer is sent if it is not empty, and cleared |
| Debounce.OrderKept | crates/openfang-api/src/ws.rs:529-621 | in every run, frames and buffer are what was to be shown, byte for byte and event for event, in order |
| Debounce.TextConserved | crates/openfang-api/src/ws.rs:529-633 | sent text and buffer are the accumulated text; the buffer stays under 200 bytes; no empty frame |
| Debounce.SilentShowsNoText | crates/openfang-api/src/ws.rs:623-633 | a silent turn has shown no text |
| Debounce.RunningIff | crates/openfang-api/src/ws.rs:529-621 | the loop runs exactly until the stream ends or an event cannot be sent |
| Debounce.UsageSeenIff | crates/openfang-api/src/ws.rs:529-621 | usage was reported exactly if the content was completed while the loop ran |
| Debounce.PromptWithinDay | crates/openfang-api/src/ws.rs:521-621 | within a day, text waits longer than 100 ms after the first unsent delta by the lateness of the timer at most |
| Debounce.PromptIff | crates/openfang-api/src/ws.rs:525-571 | for every lateness, this holds for all runs up to a time exactly when that time is within the day and that lateness |
| CanonicalLists.DedupeAndSortStrings | crates/openfang-agent-definition/src/lib.rs:1076-1083 | the loops of trimming, dropping, sorting and deduplicating compute the canonical list |
| CanonicalLists.StringsMeaning | crates/openfang-agent-definition/src/lib.rs:1076-1083 | the list is strictly sorted and holds exactly the trimmed non-empty values |
| CanonicalLists.StringsIff | crates/openfang-agent-definition/src/lib.rs:1076-1083 | two lists normalize alike exactly when these values agree, whatever their order |
| CanonicalLists.StringsIdempotent | crates/openfang-agent-definition/src/lib.rs:1076-1083 | normalizing again changes nothing |
| CanonicalLists.CanonicalFirst | crates/openfang-agent-definition/src/lib.rs:1085-1088 | stable sort and dedup keep the first element of every name |
| CanonicalLists.StrictUnique | crates/openfang-agent-definition/src/lib.rs:1085-1088 | a strictly sorted list is determined by its firsts |
| CanonicalLists.CanonicalIff | crates/openfang-agent-definition/src/lib.rs:1085-1088 | two lists have one canonical list exactly when they agree on the first of every name |
| Delegation.ReadBack | crates/openfang-agent-definition/src/lib.rs:46-65 | a kind that was read is written as a string that reads as the same kind |
| Delegation.ReadIsFaithful | crates/openfang-agent-definition/src/lib.rs:46-65 | in a list that was read no two kinds are written alike |
| Delegation.KindsOrderFree | crates/openfang-agent-definition/src/lib.rs:1085-1088 | then the canonical list depends exactly on the set of kinds |
| Delegation.OrderFreeIff | crates/openfang-agent-definition/src/lib.rs:1085-1088 | all orders of a list have one canonical list exactly when no two kinds in it are written alike |
| Delegation.UnfaithfulOrderMatters | crates/openfang-agent-definition/src/lib.rs:1085-1088 | a list built by hand for which it depends on the order, and which loses an unknown kind |
| Delegation.KnownKept | crates/openfang-agent-definition/src/lib.rs:1085-1088 | known kinds stay known, and for faithful lists unknown ones stay unknown |
| Contract.CollectIssues | crates/openfang-types/src/contract.rs:269-353 | one pass appends exactly the issues of a node and its descendants |
| Contract.AcceptsIff | crates/openfang-types/src/contract.rs:263-410 | no issue is reported exactly when every part stands where it may, at every depth |
| Contract.NormalizeIdempotent | crates/openfang-types/src/contract.rs:236-258 | normalizing twice is normalizing once |
| Contract.NormalizeKeepsIssues | crates/openfang-types/src/contract.rs:236-353 | a normalized contract has the same issues at the same paths |
| ContractMeaning.IssueIff | crates/openfang-types/src/contract.rs:263-410 | an issue is reported exactly where its path leads to a node with that problem |
| ContractMeaning.SameNormalIff | crates/openfang-types/src/contract.rs:236-258 | two contracts have one normal form exactly when they say the same at every depth, up to the spelling of kinds and defaults that are written out |
| ContractMeaning.NormalIsSame | crates/openfang-types/src/contract.rs:236-258 | the normal form says what the contract says |
| ContractMeaning.NormalIsWrittenOut | crates/openfang-types/src/contract.rs:236-258 | it has canonical kinds and these defaults written out, at every depth |
| Contract.RoundTripIff | crates/openfang-types/src/contract.rs:446-505 | writing and reading gives a node back exactly when its flags fit its values |
| Contract.ReadIsWrittenBack | crates/openfang-types/src/contract.rs:446-505 | what was read is written as it stood |
| Contract.NormalFormIsStored | crates/openfang-types/src/contract.rs:236-505 | the normal form of what was read survives storage |
| AgentDefinition.Stage1SchemaValidate | crates/openfang-agent-definition/src/lib.rs:536-607 | the schema issues, in order |
| AgentDefinition.Stage4Normalize | crates/openfang-agent-definition/src/lib.rs:721-755 | the field-by-field assignments compute the normal form |
| AgentDefinition.HasBlockingIssues | crates/openfang-agent-definition/src/lib.rs:995-1000 | whether some schema or semantic issue is an error |
| AgentDefinition.CompileGates | crates/openfang-agent-definition/src/lib.rs:758-765 | which gate stops a definition, if any |
| DefinitionPipeline.BlockingIff | crates/openfang-agent-definition/src/lib.rs:536-717 | a definition is blocked exactly when it is not acceptable, read declaratively |
| DefinitionPipeline.NormalizeTwiceIff | crates/openfang-agent-definition/src/lib.rs:721-755 | normalizing is idempotent on a definition exactly when its public driver name is a fixed point |
| DefinitionPipeline.IdempotentLibraryIff | crates/openfang-agent-definition/src/lib.rs:721-755 | a provider library makes normalizing idempotent for every driver exactly when each public driver name is its own public name |
| DefinitionPipeline.GatesIff | crates/openfang-agent-definition/src/lib.rs:758-765 | the exact condition, about the driver alone, under which an unblocked definition passes both gates once normalized |
| DefinitionPipeline.BlockingNormalized | crates/openfang-agent-definition/src/lib.rs:721-755 | with a stable driver, normalizing adds no blocking issue, and for faithful delegation lists removes none |
| DefinitionPipeline.NormalizedCompiles | crates/openfang-agent-definition/src/lib.rs:721-765 | with a stable driver, every unblocked definition passes both gates after one normalization |
| DefinitionPipeline.ListOrderFree | crates/openfang-agent-definition/src/lib.rs:721-755 | definitions that differ in the order, repetition and blanks of their tags, skills, tools, primitives and faithful delegation lists have one normal form, and only these |
| DefinitionMeaning.NormalSaysTheSameIff | crates/openfang-agent-definition/src/lib.rs:721-755 | a definition is equivalent to its normal form, field by field, exactly when its public driver name is a fixed point |
| DefinitionMeaning.SameNormalFormIff | crates/openfang-agent-definition/src/lib.rs:721-755 | two whole definitions have one normal form exactly when they are equivalent: texts up to the blanks around them, blank options as absent, an absent `enabled` as true, lists by their values, the public driver name and its configuration, contracts as above, the rest equal |
| DefinitionMeaning.IssuesExact | crates/openfang-agent-definition/src/lib.rs:536-717 | which issue is reported at which place, for every definition and every issue |
| DefinitionMeaning.FitsIff | crates/openfang-agent-definition/src/lib.rs:289-311 | which configuration fits which driver |
| DefinitionMeaning.DriverRead | crates/openfang-agent-definition/src/lib.rs:1029-1032 | the canonical name of a driver is that of its name in small letters, without the blanks around it |
| DefinitionMeaning.PublicName | crates/openfang-agent-definition/src/lib.rs:1034-1036 | the public name is the canonical one with every hyphen as an underscore |
| StreamDedup.Normalize | crates/openfang-api/src/stream_dedup.rs:77-95 | the character loop computes the normal form |
| StreamDedup.NormalFormMeaning | crates/openfang-api/src/stream_dedup.rs:77-95 | it is the lower-case words joined by single spaces |
| StreamDedup.SameFormIff | crates/openfang-api/src/stream_dedup.rs:77-95 | two texts have one normal form exactly when they have the same words |
| StreamDedup.NormalFormIdempotent | crates/openfang-api/src/stream_dedup.rs:77-95 | normalizing again changes nothing |
| StreamDedup.LongIff | crates/openfang-api/src/stream_dedup.rs:33-56 | a text is long exactly if its encoding has ten bytes |
| StreamDedup.Detector.Check | crates/openfang-api/src/stream_dedup.rs:33-46 | both searches together decide as specified |
| StreamDedup.Detector.RecordSent | crates/openfang-api/src/stream_dedup.rs:49-62 | the two lists after a record |
| StreamDedup.Detector.Reset | crates/openfang-api/src/stream_dedup.rs:64-68 | both lists are empty after a clear |
| StreamDedup.RunIsRecentLog | crates/openfang-api/src/stream_dedup.rs:49-68 | in every run the lists are the last fifty long texts since the last clear and their normal forms, aligned |
| StreamDedup.DuplicateIff | crates/openfang-api/src/stream_dedup.rs:33-68 | a text is a duplicate exactly when it is long and one of those has its words; the exact comparison adds nothing |

## Left out

- Network clients, webhooks, adapter loops, token refresh, stores, configuration, routing tables and UI text: I/O without algorithms of this kind.
- Cryptography, session authentication, and the request limiter of `crates/openfang-api/src/rate_limiter.rs`, whose algorithm is in a library that is not part of this model.
- The per-address slot counter of the WebSocket server: its decrement and removal are two steps, so it is exact only if dropping is atomic.
- `openai_compat.rs`, `split_message` and the agent router: the router's answers are parameters of the dispatcher.
- JSON parsing, frame encoding and regular expressions: payloads are bytes or abstract values. Ids and counters do not wrap around at 64 bits.
- The block rules of the WeCom format around the inline stripping, and the choice of format by channel: line-by-line replacements that would add only easy members.
- Formatting of responses and the wording of issues, apart from their codes and places.
- Reference validation against a context of known profiles, skills and primitives (`crates/openfang-agent-definition/src/lib.rs:611-669`): it is not one of the compiler's gates.
- The projections of a compiled definition (manifest, provider binding, metadata) after the gates, and provider defaults other than the token maximum: copies of fields and library calls.
- Drivers' canonical names, supported drivers, configuration kinds and refused request keys belong to the provider library, which is not part of this model; they are functions of a parameter, and configuration settings are opaque maps.
- Dispatch.Dispatcher.DispatchBroadcast: the calls of a parallel broadcast are recorded in the order of the targets, although they run at the same time.
- Dispatch.Dispatcher.DispatchMessage: typing refresh, failures of sending a response and the text of command answers are not effects of the model; the limiter and command handler are answers of the environment.
- FeishuConnection.Connection.HandleDataFrame: acknowledgement headers and timing are left out.
- Debounce.StreamTask.Handle: verbosity filtering is part of the parameter that says which JSON an event maps to; failures of sending text are ignored, as in the original.
- Debounce.PromptIff: how late a due timer is served is a parameter, since the loop picks among ready events without an order and no scheduler bounds that time.
- TelegramTags.TelegramClean: tokens and counts of the document; nesting and whole anchors are stated for the inline text of a line.
- InlineTags.InlineIntact: the token of an opening anchor ends before its address; for the rest of the tag see AnchorValues.
- ShownText.InlineShown: for texts without links; what a link becomes is in Links.LinkRound, and its anchor may break (AnchorValues).
- DispatchContent.PayloadsMeant: content blocks are one opaque value, made from the image by the environment.
- SseHandle.ReplayExact: publishing is one step here; for publishers that interleave see SsePublishers, and for storing a fingerprint and publishing as two steps SseChanges.
- SseFollower.CarefulKeepsGood: one client and serial publishers; a keepalive may come at any moment, since its fifteen seconds are not counted, and a frame that the serving task hands over reaches the client unless the connection ends first.
- SseReaders.StreamJavaScript: the byte order mark that the decoder drops at the start is not; `trim` removes it from the line anyway.
- ReadersAgree.AgreeIff: both clients get the same JSON parser.
- Contract.NormalizeIdempotent: the sorted map of fields is a list in its order; keys are not required to be sorted or distinct.
