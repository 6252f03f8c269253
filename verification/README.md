# Verified models of the optimisation proxy and its dashboard

The proxy in this repository sits between agents and language-model providers.
It shortens requests (pruning, truncation, diff and log compression, row
dropping), recognises repeated ones (an in-flight lock, a canonical-request
cache, a loop detector) and shows in a dashboard what it changed. Most of that
is done on raw bytes, with greedy scanners and shared Redis keys, where a small
slip loses data silently. This project models the parts where that can happen
and proves what they promise, for every input and for every interleaving.

`dafny verify dfyconfig.toml` checks everything.

## The modules

Diffs and projection (TypeScript)

- `Lcs`: common subsequences, a forward and a backward table, and the proof that
  both give the greatest length of *any* common subsequence.
- `LineDiff`, `ModDiff`: the two line diffs and the word diff, with their tables
  in place. The second line diff pairs up lines on ties; its exact shortfall
  (`ModDiff.Losses`) is part of its contract.
- `Projection`: the closed-form least-squares line, over the reals.

Bytes and text (Go)

- `Text`: substring search, splitting and joining at line feeds.
- `JsonScan`: the brace scanner, against the grammar of RFC 8259.
- `ToolMessages`: string fields found, decoded, encoded and replaced; both
  walks over a payload.
- `ToolTraces`: what those walks do to a payload, told by places in it.
- `SystemContent`: the extraction of the first system message.
- `JsonText`: what a string literal denotes (RFC 8259), and the two encoders that
  write literals.
- `Canonical`: the canonical form of a text.
- `CanonicalLiterals`: the canonical form of a content literal, down to its spelling.
- `OneText`: when such a form stands for one text only.
- `CanonicalMessages`: the canonical form of a message list, and the two questions for
  lists: who shares a key, and when does a key stand for one text.
- `Compressor`: thought pruning, truncation, blanking of repeated tool results.
- `CompressorRules`: what that leaves of a text and of a message, told by places.
- `DiffHunks`, `DiffText`: eliding unchanged diff lines, from one hunk to a text.
- `DiffPositions`: the output of that, line by line, told by positions in the input.
- `Order`, `Csv`: sorted keys, the CSV compactor and an RFC 4180 reader.
- `LogSelection`: the insertion sorts, the top-k choice, the structured selection.
- `TagZones`: the protected-zone scanner.

Shared state (Go)

- `Redis`: a server object with strings, sorted sets, expiries and a clock.
- `L0Lock`, `CcrCache`, `LoopWindow`: three protocols. Each has a step function
  (one Redis command of one request), a log of what happened, and a law stated on
  the log or the records alone; the main lemmas say that every run, in any
  interleaving, keeps the law. The methods issue the commands on a `Server` and
  are proved to take exactly those steps, with other requests running in between. The
  purge handler may drop any name of the cache and any key of the loop detector between
  two commands.
- `CompressionStore`: the row dropper, the store of originals, the answer to a
  retrieve call.
- `Hooks`: the registry and both pipelines.

## Conventions

- A Go byte string is a `string` with one char per byte. In `JsonText`,
  `CanonicalLiterals`, `OneText` and `CanonicalMessages`, which see valid UTF-8 only, a
  char is a character.
- A message is the literal of its string content and the raw bytes around it. What is
  read off those bytes (the role, as by `CanonicalMessages.RoleIn`, and whether the field
  scan reaches the literal) and what json.Marshal compacts them to are parameters, so two
  messages may be compacted alike and yet be read differently.
- Two literals read alike when a JSON reader gets the same text from both, or texts that
  differ in the white space the canonicalizer drops.
- Where the source ranges over a map, the model works for any order.
- SHA-256, cut or not, is a function of fixed width, passed in. Where a result needs
  that it does not collide, it needs it of the texts or requests of that run only;
  `CompressionStore.HashesExist` and `CcrCache.DigestsExist` show that such functions
  exist.
- `encoding/json`, `unicode.IsSpace`, the error test on cached bodies, line scores,
  the dedupe passes and the per-trace compressor are function parameters.
- A ghost parameter or result (`s`, `t`, `did`, `scan`, `kept`) names the abstract
  state a method is proved against; it carries no data.
- Time is one monotone clock shared by proxy and Redis.

## Where the code differs from its comments

The model follows the code.

- `wordDiff` cuts each token list to 400 but walks to the uncut lengths, so longer
  lines show undefined tokens: `ModDiff.CapIsExact`, `ModDiff.WordDiff`.
- `lineDiff` is not a longest-common-subsequence diff: `ModDiff.LineDiffIsNotOptimal`.
  It is one exactly when its walk comes to no lossy tie: `ModDiff.LosesNothingIff`.
- `L0Release` is described as a no-op for a caller that never acquired. It leaves
  the lock alone but publishes its response: `L0Lock.ReleaseWithoutLease`.
- On an error the prior payload is said to be used. A hook that returns an error
  with a payload has its payload used: `Hooks.ErrorKeepsPayloadIff`.
- `GetHooks` is described as sorted. It returns registration order, so it is sorted
  exactly when the hooks were registered in order: `Hooks.RegisterInTurn`,
  `Hooks.TwoHooksUnsorted`. The runners sort.
- Neither decoder decodes \uXXXX. So control bytes without a two-character escape do
  not survive a rewrite (`ToolMessages.DecodingUndoesEncoding`,
  `ToolMessages.ControlByteIsLost`), and a rewritten literal with a \u escape denotes
  another text: `JsonText.ReencodingKeepsTheTextIff`.
- The cache key is meant to be the same for requests that differ in white space only.
  A content literal is written anew only when its text changes, and else keeps its
  spelling. So after a \u escape or a \/ a doubled space changes the key
  (`CanonicalLiterals.SpacesAfterEscapesShow`, `CanonicalLiterals.SpacesAfterSlashesShow`;
  the exact condition is `CanonicalLiterals.EditsKeepTheFormIff`), and two requests
  with different texts can share a name: `CcrCache.OneNameTwoTexts`. Some run serves a
  request the answer to another text exactly when one of its messages is ambiguous:
  `CcrCache.WrongAnswerIff`, `CcrCache.NameMeansTextIff`. A message that is canonicalized
  is ambiguous when its bytes in the key are what json.Marshal writes for a text that
  spells out a \u escape; where the content changes, that is when the decoded content
  spells one out (`CanonicalMessages.EditedIsAmbiguousIff`).
- The role is said to be found with optional white space. It is not found when a blank
  precedes the colon, and the message is then left alone:
  `CanonicalMessages.BlankHidesTheRole`.
- Two calls of the loop hook within one nanosecond count as one:
  `LoopWindow.RecentCount`, `LoopWindow.DetectAll`, `LoopWindow.OneMemberTwoCalls`.
- A row-drop marker can lead back to another array with the same dropped rows:
  `CompressionStore.SameArrayIff`, `CompressionStore.TwoArraysOneKey`.
- An array of empty objects would not survive as CSV: `Csv.CsvRoundTrip`. The
  caller's test for keys keeps that case out.

## Model

| member | source | states |
|---|---|---|
| `Lcs.TablesAgree` | dashboard/components/LiveTelemetryGrouped.tsx:1031-1045 | The forward table of one component and the backward table of the other hold the same number in their answer cells, and it is the greatest length of any common subsequence |
| `Lcs.BackwardSteps` | dashboard/components/LiveTelemetryGrouped.tsx:1085-1095 | Neighbouring cells of a backward table differ by at most one |
| `LineDiff.FillTable` | dashboard/components/RequestExplorer.tsx:566-577 | Every cell of the filled matrix is the forward table's value for its prefixes |
| `LineDiff.ComputeLineDiff` | dashboard/components/RequestExplorer.tsx:563-596 | Removed and unchanged rows spell the original, added and unchanged rows the modified text, and the unchanged rows are as many as in any longest common subsequence of the lines |
| `ModDiff.TokensSpellTheLine` | dashboard/components/LiveTelemetryGrouped.tsx:1018-1021 | The tokens of a line concatenate back to the line |
| `ModDiff.CapIsExact` | dashboard/components/LiveTelemetryGrouped.tsx:1026-1030 | The cut to 400 tokens loses nothing exactly when there are at most 400 |
| `ModDiff.BackwardTable` | dashboard/components/LiveTelemetryGrouped.tsx:1031-1045 | Every cell of the filled array is the backward table's value for its suffixes |
| `ModDiff.WordDiff` | dashboard/components/LiveTelemetryGrouped.tsx:1025-1071 | Both sides spell their token lists and highlight all but one longest common subsequence when neither line has more than 400 tokens; a side loses tokens exactly when its line has more |
| `ModDiff.LineDiff` | dashboard/components/LiveTelemetryGrouped.tsx:1077-1137 | Same, deleted and modified rows spell the left text, same, added and modified the right; the statistics sum to both line counts; the same rows miss the longest common subsequence by exactly the losses on ties, which never exceed the modified rows; they miss nothing exactly when the walk comes to no lossy tie |
| `ModDiff.LosesNothingIff` | dashboard/components/LiveTelemetryGrouped.tsx:1099-1122 | The walk loses nothing exactly when at no place it visits both neighbouring cells tie while the cell diagonally behind holds less |
| `ModDiff.LineDiffIsNotOptimal` | dashboard/components/LiveTelemetryGrouped.tsx:1097-1128 | Two swapped lines have a common line, and the walk loses it |
| `Projection.DenominatorClosed` | dashboard/components/ServerHealthCard.tsx:636-645 | The denominator is n(n^2-1)/12, so from three samples on the zero guard never fires |
| `Projection.ClosedFormIsBalanced` | dashboard/components/ServerHealthCard.tsx:636-647 | The closed-form slope and intercept satisfy both normal equations |
| `Projection.BalancedIsLeast` | dashboard/components/ServerHealthCard.tsx:646-653 | A line that satisfies them has a smaller sum of squared residuals than every other line |
| `Projection.LinearProjection` | dashboard/components/ServerHealthCard.tsx:628-659 | Nothing below three samples; otherwise the unique least-squares line, its value at the horizon and the residual variance |
| `Projection.AffineIsExact` | dashboard/components/ServerHealthCard.tsx:628-659 | A series that lies on a line is fitted by that very line |
| `Text.BytesIndex` | proxy/optiagent/hook_cache_aligner.go:479-499 | The byte search returns the least offset of an occurrence, or -1 |
| `Text.IndexOfIsLeast` | proxy/optiagent/hook_cache_aligner.go:479-499 | What that offset means: the needle is there and nowhere before |
| `JsonScan.FindObjectEnd` | proxy/optiagent/hook_cache_aligner.go:394-430 | The loop returns what the scanner state machine returns from that offset, or failure |
| `JsonScan.ObjectEndIsExact` | proxy/optiagent/hook_cache_aligner.go:394-430 | For every JSON object with any legal white space and escapes, in front of any bytes, the end found is its own closing brace |
| `JsonScan.FoundAtAnyOffset` | proxy/optiagent/hook_cache_aligner.go:394-430 | The same behind any bytes |
| `JsonScan.TruncatedObjectHasNoEnd` | proxy/optiagent/hook_cache_aligner.go:426-430 | An object cut short anywhere is reported as unterminated |
| `SystemContent.LegalLiteralDecodes` | proxy/optiagent/hook_ccr_compress.go:276-366 | Every legal string literal is decoded to its meaning, \uXXXX verbatim, whatever follows it |
| `SystemContent.DecodersAgree` | proxy/optiagent/hook_log_compressor.go:573-621 | The log compressor's decoder gives the same text on every legal literal |
| `SystemContent.ExtractStringField` | proxy/optiagent/hook_ccr_compress.go:276-366 | The loop returns the decoded literal of the first such key, or failure |
| `SystemContent.SkipJSONValueStart` | proxy/optiagent/hook_cache_aligner.go:437-451 | The first byte that is neither white space nor a colon, or -1 |
| `SystemContent.ExtractSystemContent` | proxy/optiagent/hook_cache_aligner.go:292-351 | The walk's result, with its three outcomes told apart |
| `SystemContent.ExtractsTheFirstSystemMessage` | proxy/optiagent/hook_cache_aligner.go:292-351 | For any payload whose first "messages" key introduces a legally printed list of objects, the result is that of the first message the role test accepts |
| `SystemContent.RoleTestIsExact` | proxy/optiagent/hook_cache_aligner.go:357-388 | A message that starts with its role, with spaces and tabs around the colon, passes exactly when the role reads system |
| `ToolTraces.ContentIsRead` | proxy/optiagent/hook_cache_aligner.go:335-345 | The content of a message is the meaning of the first legal content literal in it |
| `ToolMessages.JsonEncodeString` | proxy/optiagent/hook_log_compressor.go:624-656 | The encoder's bytes, character by character |
| `ToolMessages.UnescapeJSONString` | proxy/optiagent/hook_log_compressor.go:573-621 | The decoder's text, unit by unit |
| `ToolMessages.DecodingUndoesEncoding` | proxy/optiagent/hook_log_compressor.go:573-656 | Decoding gives an encoded text back exactly when its control bytes all have two-character escapes |
| `ToolMessages.CloseQuoteOfEncoded` | proxy/optiagent/hook_log_compressor.go:555-567 | Scanning an encoded text for its closing quote stops at the encoder's own, whatever follows |
| `ToolMessages.FindStringField` | proxy/optiagent/hook_log_compressor.go:535-568 | The positions of both quotes of the first such field, or failure |
| `ToolMessages.CompressToolMessage` | proxy/optiagent/hook_log_compressor.go:513-529 | The message with its content literal replaced, or unchanged |
| `ToolMessages.RewrittenMessageReadsBack` | proxy/optiagent/hook_log_compressor.go:513-529 | The code's own decoder reads the compressed text back from a rewritten message exactly when it needs no \u escape, and no byte outside the literal changed |
| `JsonText.ReencodingKeepsTheTextIff` | proxy/optiagent/hook_log_compressor.go:573-656 | For every legal literal, decoding it and encoding the result gives a literal that denotes the same text, by RFC 8259, exactly when the original has no \uXXXX |
| `ToolMessages.IsToolMessage` | proxy/optiagent/hook_log_compressor.go:480-508 | Whether the first role literal reads tool |
| `ToolMessages.CompressAllTraces` | proxy/optiagent/hook_log_compressor.go:412-476 | The loops compute the walk: the rewritten payload, or the payload itself when the walk gives up |
| `ToolMessages.WalkRewritesEachMessage` | proxy/optiagent/hook_log_compressor.go:430-476 | On every legally printed message list exactly the tool messages are rewritten, all other bytes kept |
| `ToolMessages.UnchangedPayload` | proxy/optiagent/hook_log_compressor.go:412-476 | When no visited message changes, any payload comes back byte for byte |
| `ToolTraces.RoleByPlace` | proxy/optiagent/hook_log_compressor.go:480-508 | A message passes the role test exactly when the quote behind its first role key, a colon and blanks starts that word and its closing quote |
| `ToolTraces.MessageByPlace` | proxy/optiagent/hook_log_compressor.go:513-529 | In a message with a legal content literal just that literal changes, to the encoding of its compressed text, and only if it says tool and the text is another |
| `ToolTraces.OtherMessagesStay` | proxy/optiagent/hook_log_compressor.go:510-517 | A message that does not say tool, or has no content literal, comes back as it is |
| `ToolTraces.PayloadByPlace` | proxy/optiagent/hook_log_compressor.go:412-476 | In any payload whose first "messages" key introduces a legally printed list, with any white space around the colon, each message is rewritten so and no other byte changes |
| `ToolTraces.ArrayByPlace` | proxy/optiagent/hook_log_compressor.go:414-434 | The walk starts behind a bracket exactly when white space and one colon join it to the first "messages" key |
| `ToolTraces.NoArrayNoChange` | proxy/optiagent/hook_log_compressor.go:414-434 | Any other payload comes back as it is |
| `ToolMessages.CompressStructuredLogs` | proxy/optiagent/hook_log_compressor.go:217-257 | The rewriting of all content literals if that is shorter, else the payload |
| `ToolMessages.UnchangedContents` | proxy/optiagent/hook_log_compressor.go:217-257 | When no visited text changes, no byte changes |
| `ToolMessages.RewrittenContentsReadBack` | proxy/optiagent/hook_log_compressor.go:217-257 | Scanning the rewritten payload visits one text for each old one, and that is the compressed text exactly when nothing changed or no control byte of it needs a \u escape |
| `ToolTraces.ContentByPlace` | proxy/optiagent/hook_log_compressor.go:217-257 | The first content literal gives way to its compressed text, the bytes in front stay, and the rest is treated likewise |
| `ToolTraces.NoContentStays` | proxy/optiagent/hook_log_compressor.go:217-257 | A text without another content literal stays as it is |
| `ToolMessages.ControlByteIsLost` | proxy/optiagent/hook_log_compressor.go:573-656 | The byte 1 comes back as the six characters of its escape |
| `Canonical.FixedPoints` | proxy/optiagent/hook_ccr_compress.go:215-231 | A text is left alone exactly when it is canonical; canonicalizing twice is canonicalizing once |
| `Canonical.EditPreservesKey` | proxy/optiagent/hook_ccr_compress.go:215-231 | Doubling a space, adding trailing blanks, writing LF as CRLF or CR never changes the result |
| `Canonical.SameKeyIffLinked` | proxy/optiagent/hook_ccr_compress.go:215-231 | Two texts share a canonical form exactly when a chain of those edits links them |
| `CanonicalMessages.CanonicalizeContent` | proxy/optiagent/hook_ccr_compress.go:184-207 | A literal is written anew exactly when its decoded text is not canonical, and is kept as it is otherwise |
| `CanonicalLiterals.SharesFormIff` | proxy/optiagent/hook_ccr_compress.go:184-207 | Two literals share a form exactly when both are written anew and white-space edits link their texts, or both are kept and spelled alike, or the kept one is what json.Marshal writes for the canonical text of the other |
| `CanonicalLiterals.SpellingIsExact` | proxy/optiagent/hook_ccr_compress.go:374-424 | A literal is spelled the way json.Marshal spells its text exactly when its bytes are plain: no \u escape, no \/, \b or \f |
| `CanonicalLiterals.EditsKeepTheFormIff` | proxy/optiagent/hook_ccr_compress.go:184-231 | White-space edits keep the form exactly when both literals change, or the one that does not is plainly spelled, or neither changes and they are spelled alike |
| `CanonicalLiterals.PlainlySpelledShareIff` | proxy/optiagent/hook_ccr_compress.go:184-231 | Plainly spelled literals share a form exactly when white-space edits link their texts |
| `CanonicalLiterals.SharedFormsAreLinked` | proxy/optiagent/hook_ccr_compress.go:184-231 | Without \uXXXX a shared form means texts linked by white-space edits |
| `CanonicalLiterals.SpacesAfterEscapesShow` | proxy/optiagent/hook_ccr_compress.go:184-207 | A doubled space behind \u00e9 changes the form |
| `CanonicalLiterals.SpelledOutSharesTheForm` | proxy/optiagent/hook_ccr_compress.go:184-207 | The form of the one with two spaces is that of a literal denoting another text |
| `CanonicalLiterals.SpacesAfterSlashesShow` | proxy/optiagent/hook_ccr_compress.go:184-207 | A doubled space behind \/ changes the form |
| `OneText.OneFormOneTextIff` | proxy/optiagent/hook_ccr_compress.go:184-207 | All literals that share a form with this one read alike exactly when that form is not what json.Marshal writes for a canonical text that spells out a \uXXXX |
| `OneText.AmbiguousIff` | proxy/optiagent/hook_ccr_compress.go:184-207 | Where the text changes, or the literal is plainly spelled, that is when the decoded text spells none out; a kept literal with a part json.Marshal would spell otherwise is always safe |
| `OneText.SameTextIff` | proxy/optiagent/hook_ccr_compress.go:184-207 | Among the literals that decode to the text of a changed one and share its form, all denote the same exactly when that text spells out no \uXXXX |
| `CanonicalMessages.ExtractRole` | proxy/optiagent/hook_ccr_compress.go:248-271 | The loops return the text behind the first role key that its colon follows directly, or nothing |
| `CanonicalMessages.RoleIsRead` | proxy/optiagent/hook_ccr_compress.go:248-271 | Such a role is read whatever follows it |
| `CanonicalMessages.BlankHidesTheRole` | proxy/optiagent/hook_ccr_compress.go:248-271 | With a blank before the colon it is not |
| `CanonicalMessages.Compress` | proxy/optiagent/hook_ccr_compress.go:112-147 | The loop canonicalizes each message, drops the marked ones and writes the rest out as json.Marshal does |
| `CanonicalMessages.CanonicalizeIdempotent` | proxy/optiagent/hook_ccr_compress.go:126-176 | Canonicalizing a canonical list changes nothing |
| `CanonicalMessages.BlankSystemIsInvisible` | proxy/optiagent/hook_ccr_compress.go:161-169 | A message inserted anywhere does not show exactly when it reads as a system message with nothing but white space in its content |
| `CanonicalMessages.KeyOfMessage` | proxy/optiagent/hook_ccr_compress.go:154-207 | The bytes of one message in the key: the content is written anew exactly for the roles system, user and assistant, where the field scan reaches it and its text is not canonical |
| `CanonicalMessages.KeyOfList` | proxy/optiagent/hook_ccr_compress.go:126-136 | The key of a list is the keys of its parts in order |
| `CanonicalMessages.SameKeyIffSameForms` | proxy/optiagent/hook_ccr_compress.go:112-176 | Two lists become the same bytes exactly when their messages, blank system ones aside, are compacted alike around content literals that end up alike, each canonicalized or kept as its own bytes are read |
| `CanonicalMessages.MessagesAgree` | proxy/optiagent/hook_ccr_compress.go:157-207 | For plainly spelled contents that is sameness up to white space in contents that are canonicalized, and sameness in others; without \uXXXX it implies it |
| `CanonicalMessages.PlainListsShareKeyIff` | proxy/optiagent/hook_ccr_compress.go:112-176 | Two plainly spelled lists become the same bytes exactly when their messages, blank system ones aside, differ in edits of that kind only |
| `CanonicalMessages.OneKeyOneTextIff` | proxy/optiagent/hook_ccr_compress.go:112-207 | All lists that share their key with this one read alike, blank system messages aside, exactly when none of its messages is ambiguous and of a kind that is canonicalized under some spelling of its other bytes |
| `CanonicalMessages.EditedIsAmbiguousIff` | proxy/optiagent/hook_ccr_compress.go:157-207 | For a canonicalized message this is told by its literal, and where the text changes or is plainly spelled by whether the decoded text spells out a \uXXXX |
| `Compressor.LooksLikeTodoList` | proxy/optiagent/compressor.go:41-57 | The todo-list test |
| `CompressorRules.TodoByPlace` | proxy/optiagent/compressor.go:41-57 | That is, a signature that ends within the first 512 bytes |
| `Compressor.PruneIdempotent` | proxy/optiagent/compressor.go:72-72 | Removing leftmost thought blocks cannot create new ones |
| `CompressorRules.FirstBlockIsPruned` | proxy/optiagent/compressor.go:72-72 | For each of the three tags: the first block of a text, from its opening tag to the first closing tag behind it, becomes the marker; what stands in front stays, and the rest is pruned likewise |
| `CompressorRules.NothingToPrune` | proxy/optiagent/compressor.go:72-72 | A text in which no opening tag is followed by its closing tag comes back as it is |
| `Compressor.CutIsNotTodo` | proxy/optiagent/compressor.go:185-211 | Cutting a text that is no todo list and adding the suffix never makes it one |
| `Compressor.TruncateIdempotent` | proxy/optiagent/compressor.go:187-211 | Truncating a truncated content, string or blocks, gives it back |
| `Compressor.CompressMessages` | proxy/optiagent/compressor.go:95-232 | The loop with its run counter rewrites the array in place to what its rules say for each position |
| `Compressor.CompressIdempotent` | proxy/optiagent/compressor.go:95-232 | Compressing a compressed list changes nothing, whatever the messages |
| `Compressor.CompressKeeps` | proxy/optiagent/compressor.go:95-232 | Count, order, roles and names survive; the last message, todo lists and other roles come through verbatim |
| `CompressorRules.MessageByPlace` | proxy/optiagent/compressor.go:95-232 | What becomes of each message: assistant turns are pruned text by text and lose both reasoning fields; tool results that are no todo list are cut to 200 bytes and the suffix, or blank from the third of their run on; all else, and the last message, stays |
| `Compressor.BlankedExactlyWhenRepeated` | proxy/optiagent/compressor.go:176-231 | A tool result ends up blank exactly when it was, or is third or later in its run, not last and no todo list |
| `Compressor.RunPositionCounts` | proxy/optiagent/compressor.go:213-231 | The counter is the position in a maximal run of tool messages of one name |
| `DiffHunks.CompressHunk` | proxy/optiagent/hook_diff_compressor.go:233-280 | The loop keeps the lines within two of a change and puts one marker for each maximal dropped run |
| `DiffHunks.ElideIdempotent` | proxy/optiagent/hook_diff_compressor.go:233-280 | Compressing a hunk twice is compressing it once, and each marker stands exactly three lines from any neighbouring change |
| `DiffHunks.KeptLinesSurvive` | proxy/optiagent/hook_diff_compressor.go:253-278 | Whatever is near a change survives, in order |
| `DiffPositions.BlockIsThinned` | proxy/optiagent/hook_diff_compressor.go:152-280 | A compressed block is the block without the hunk lines that have no change within two lines in their hunk, with one marker for each run of them |
| `DiffHunks.ParsedBlock` | proxy/optiagent/hook_diff_compressor.go:152-190 | From its first file header on, a parsed block concatenates back |
| `DiffHunks.ParseOfRendered` | proxy/optiagent/hook_diff_compressor.go:152-190 | Parsing rendered files gives the files back |
| `DiffHunks.CompressBlockIdempotent` | proxy/optiagent/hook_diff_compressor.go:152-205 | Parsing, eliding and rendering a block twice is doing it once |
| `DiffText.CompressSingleDiff` | proxy/optiagent/hook_diff_compressor.go:152-231 | The compressed block, under its offload header if there is one, or nothing when nothing is saved |
| `DiffText.CompressDiffsInText` | proxy/optiagent/hook_diff_compressor.go:79-120 | The loops find each block and replace the ones that shrink; an unmodified text is the same text |
| `DiffPositions.OutputByPosition` | proxy/optiagent/hook_diff_compressor.go:79-231 | The output for any text and any store, line by line: every line outside a diff, and every line of a block that does not get shorter, as it is; of the others all but such hunk lines, a marker for each run, and the announcement in front of its block |
| `DiffPositions.TextByPosition` | proxy/optiagent/hook_diff_compressor.go:79-231 | The same of the text |
| `DiffPositions.LinesSurvive` | proxy/optiagent/hook_diff_compressor.go:79-231 | Every other line is in the output, in order |
| `DiffPositions.NeverIdle` | proxy/optiagent/hook_diff_compressor.go:233-280 | File headers, hunk headers, changes and lines outside a diff are among those |
| `DiffPositions.NothingElseAppears` | proxy/optiagent/hook_diff_compressor.go:79-231 | Every output line is an input line, a marker in the place of a run, or the announcement of the block behind it |
| `DiffText.CompressTextIdempotent` | proxy/optiagent/hook_diff_compressor.go:79-231 | Compressing the diffs of a compressed text changes nothing, for every text |
| `Order.SortedUnique` | proxy/optiagent/hook_smart_crusher.go:213-217 | A strictly sorted list is determined by its elements, so map order cannot show |
| `Csv.ConvertToCSV` | proxy/optiagent/hook_smart_crusher.go:206-258 | The text is the table over the sorted keys of all objects |
| `Csv.ReadEscapedField` | proxy/optiagent/hook_smart_crusher.go:260-265 | A written field, with any commas, quotes, CR and LF, reads back as itself (section 2 of RFC 4180) |
| `Csv.CsvRoundTrip` | proxy/optiagent/hook_smart_crusher.go:206-265 | The written text parses back to the header row and one row per object exactly when some object has a key |
| `Csv.CellsSurvive` | proxy/optiagent/hook_smart_crusher.go:223-255 | Every cell can be looked up again by row and key: the value's text, or nothing where the key is missing or the value null |
| `Csv.OnlySpecialFieldsGrow` | proxy/optiagent/hook_smart_crusher.go:260-265 | A field is quoted exactly when it holds a comma, a quote, a CR or an LF, and then grows by two quotes and one for each of its own |
| `LogSelection.InsertionSort` | proxy/optiagent/hook_log_scoring.go:252-294 | The in-place sort, for either order, yields a sorted permutation |
| `LogSelection.TopKScoredLines` | proxy/optiagent/hook_log_scoring.go:216-250 | The kept lines number k, outrank every other line with ties to the earlier one, and come in reading order |
| `LogSelection.Select` | proxy/optiagent/hook_log_compressor.go:341-388 | All lines within three of a line scoring 0.85 are kept, and the ten best of the rest |
| `LogSelection.Assemble` | proxy/optiagent/hook_log_compressor.go:387-403 | First lines, a marker whose number is the missing lines, the survivors in order, last lines |
| `LogSelection.CompressStructuredString` | proxy/optiagent/hook_log_compressor.go:286-404 | Small or unstructured texts come back unchanged; any other keeps its ends around such a selection of what deduplication left |
| `LogSelection.PartsAreTheLog` | proxy/optiagent/hook_log_compressor.go:326-341 | The three parts are the whole deduplicated log, five lines at each end as far as there are |
| `LogSelection.DedupedFromParts` | proxy/optiagent/hook_log_compressor.go:309-325 | The first dedupe pass is given all but five lines at each end, the second the whole log again |
| `LogSelection.LevelCountIsSize` | proxy/optiagent/hook_log_compressor.go:294-302 | The bail-out test counts the lines with a level |
| `LogSelection.KeptLineStands` | proxy/optiagent/hook_log_compressor.go:379-386 | A kept line stands in the output behind the kept lines before it |
| `LogSelection.MarkerReadsBack` | proxy/optiagent/hook_log_compressor.go:390-398 | The marker names the number of missing lines |
| `LogSelection.DecimalReadsBack` | proxy/optiagent/hook_log_compressor.go:835-855 | The count written into a marker reads back as the count |
| `LogSelection.Itoa` | proxy/optiagent/hook_log_compressor.go:835-855 | The digit loop writes that decimal |
| `Redis.KeyIsInjective` | proxy/optiagent/dedup.go:47-47 | Different pairs of virtual key and hash have different keys, colons in the virtual key or not |
| `Redis.Server.SetNX` | proxy/optiagent/hook_session_circuit_breaker.go:147-153 | Set if absent: stored exactly when no live value was there |
| `Redis.Server.DelIfEquals` | proxy/optiagent/dedup.go:89-97 | The compare-and-delete script |
| `Redis.Server.ZRemRangeByScore` | proxy/optiagent/hook_session_circuit_breaker.go:167-169 | This key loses exactly the members scored up to the cutoff, every other key none |
| `Redis.EvictFilters` | proxy/optiagent/hook_session_circuit_breaker.go:167-169 | The same of the abstract store, at any time and with any expiries |
| `L0Lock.EveryRunIsLawful` | proxy/optiagent/dedup.go:46-106 | In every interleaving a request is granted a pair exactly when nobody holds it, and a poll is served exactly the bytes last published for its pair, exactly when they are less than 30 seconds old |
| `L0Lock.AtMostOneHolder` | proxy/optiagent/dedup.go:46-58 | No two workers hold unexpired leases on one pair |
| `L0Lock.LeaseLastsUntilOwnRelease` | proxy/optiagent/dedup.go:85-100 | Whatever the others do, a lease lasts its 30 seconds unless its own holder releases it |
| `L0Lock.LateReleaseIsHarmless` | proxy/optiagent/dedup.go:89-100 | With distinct worker ids, a release after the lease lapsed deletes nothing, on any pair |
| `L0Lock.ReleaseWithoutLease` | proxy/optiagent/dedup.go:83-106 | A release leaves the locks alone exactly when its caller has no live lease, and publishes a non-empty response either way |
| `L0Lock.L0Acquire` | proxy/optiagent/dedup.go:46-58 | Succeeds exactly when no worker holds the pair, and then the caller does |
| `L0Lock.L0Wait` | proxy/optiagent/dedup.go:63-81 | Among any activity of others: returned bytes were the pair's last publication, less than 30 seconds ago; a timeout comes after the deadline with nothing live |
| `L0Lock.L0Release` | proxy/optiagent/dedup.go:85-106 | Two steps with any activity in between; a non-empty response becomes the pair's last publication |
| `CcrCache.EveryRunIsLawful` | proxy/optiagent/hook_ccr_store.go:66-118 | In every interleaving a response is stored exactly when it is good and nothing live is stored under its name, a hit serves exactly the live one, and nothing ever awaits deletion |
| `CcrCache.LiveEntryIsGood` | proxy/optiagent/hook_ccr_retrieve.go:113-133 | A live entry is a non-empty body, no error, from a response with status 200 to a request of that name, so the delete branch is dead |
| `CcrCache.LiveEntryNeverChanges` | proxy/optiagent/hook_ccr_store.go:94-113 | First writer wins: until the entry expires or is purged, every run leaves it as it is |
| `CcrCache.HitsServeTheSameBytes` | proxy/optiagent/hook_ccr_retrieve.go:135-149 | All hits in one lifetime serve the same bytes |
| `CcrCache.SameNameIff` | proxy/optiagent/hook_ccr_compress.go:72-90 | Requests share a name exactly when their messages, blank system ones aside, become the same bytes; for plainly spelled ones, exactly when they differ in dropped white space only; without \uXXXX a shared name implies that; if one of them is not ambiguous, a shared name implies that they read alike |
| `CcrCache.NameMeansTextIff` | proxy/optiagent/hook_ccr_compress.go:72-90 | All requests that share a name with this one, collisions aside, read like it exactly when it is not ambiguous |
| `CcrCache.WrongAnswerIff` | proxy/optiagent/hook_ccr_retrieve.go:88-149 | Some run without collisions serves a request the answer to one that reads otherwise exactly when the request is ambiguous |
| `CcrCache.OneNameTwoTexts` | proxy/optiagent/hook_ccr_compress.go:72-90 | Two requests with the same name under every digest whose contents denote different texts |
| `CcrCache.DigestsExist` | proxy/optiagent/hook_ccr_compress.go:72-90 | For any two requests there is a digest of the right width that does not collide on them |
| `CcrCache.HitAnswersAnEquivalentRequest` | proxy/optiagent/hook_ccr_retrieve.go:88-149 | Unless the digest collides on the run's requests, a hit was the good answer, less than a lifetime ago, to a request that became the same bytes, and that reads alike unless the hit request is ambiguous |
| `CcrCache.CompressBeforeRequest` | proxy/optiagent/hook_ccr_compress.go:72-90 | A parsable request gets its name, any other leaves the context alone |
| `CcrCache.RetrieveBeforeRequest` | proxy/optiagent/hook_ccr_retrieve.go:88-149 | The context carries 200 and the live body exactly on a hit, and nothing is deleted |
| `CcrCache.StoreAfterResponse` | proxy/optiagent/hook_ccr_store.go:66-118 | Stores exactly a good response to a named request with nothing live under the name |
| `LoopWindow.CountIsExact` | proxy/optiagent/loop_detect.go:59-68 | Evicting and counting finds exactly the recorded calls less than 60 seconds old; the 70-second expiry loses none |
| `LoopWindow.RecentCount` | proxy/optiagent/hook_loop_detection.go:108-113 | The set size is the number of such calls exactly when no two share a member |
| `LoopWindow.OneMemberTwoCalls` | proxy/optiagent/hook_loop_detection.go:108-113 | Two calls within one nanosecond are one member |
| `LoopWindow.DetectLoop` | proxy/optiagent/loop_detect.go:51-118 | The count is one plus the recent calls; from three on the kill switch or a stored first response decides |
| `LoopWindow.DetectAll` | proxy/optiagent/loop_detect.go:51-118 | Over any sequence of calls, gaps and pairs without a purge, every count is one plus the earlier calls on its pair less than 60 seconds old, exactly when no two of those share a member |
| `LoopWindow.ShortCircuitNeedsTwoOthers` | proxy/optiagent/hook_loop_detection.go:89-156 | However commands interleave, a short circuit means two other calls of the pair are on record in the window; reused bytes were the last ones stored for the pair when the call was decided, stored or prolonged less than 70 seconds before |
| `LoopWindow.RecordedCallCounts` | proxy/optiagent/hook_loop_detection.go:93-118 | A call that is on record when its set is prolonged counts for sixty seconds, whatever other requests do, unless the set is purged |
| `LoopWindow.RecordAndTouch` | proxy/optiagent/hook_loop_detection.go:108-113 | Recording puts a call on record; prolonging while it is still there makes it count so |
| `LoopWindow.FirstIsLastStored` | proxy/optiagent/hook_loop_detection.go:140-148 | After any steps the pair's key holds the response last stored since the last purge, and lives 70 seconds from its last store or timely prolongation |
| `LoopWindow.ReuseIff` | proxy/optiagent/hook_loop_detection.go:114-156 | In any run a call is served stored bytes exactly when it saw two others, the kill switch is off and that key is still alive |
| `LoopWindow.BeforeRequest` | proxy/optiagent/hook_loop_detection.go:89-156 | The hook takes exactly these steps, with any activity of others in each gap; it fires the kill switch, or serves what the pair's live key holds at the decision, exactly when it counted two live members, and then two other calls are on record |
| `LoopWindow.StoreLoopFirstResponse` | proxy/optiagent/loop_detect.go:125-131 | A non-empty response is what the pair's first-response key now holds |
| `LoopWindow.AfterResponse` | proxy/optiagent/hook_loop_detection.go:169-203 | The same step, and only while at most one call of the pair is on record |
| `CompressionStore.SomethingIsDropped` | proxy/optiagent/hook_smart_crusher.go:154-167 | From five rows on the guard before dropping never fires |
| `CompressionStore.RowsArePartitioned` | proxy/optiagent/hook_smart_crusher.go:154-170 | Head, dropped rows and tail are the whole array, none of them empty |
| `CompressionStore.TryCrushJSONArray` | proxy/optiagent/hook_smart_crusher.go:78-204 | Exactly the uncrushable pass; a table that saves 15 per cent is returned; otherwise the first and last rows around one sentinel that names the number of rows left out and the key of the dropped rows, and under that very key the store holds the whole text |
| `CompressionStore.MarkerLeadsBack` | proxy/optiagent/hook_ccr_response.go:75-128 | A retrieve call with the key that the marker names is answered with the whole array |
| `CompressionStore.OffloadDiff` | proxy/optiagent/hook_diff_compressor.go:214-227 | From 50 lines on the original is saved and announced under its key |
| `CompressionStore.OffloadLog` | proxy/optiagent/hook_log_compressor.go:131-186 | The payload never grows, and its original is saved exactly when it shrank |
| `CompressionStore.SameKeyIff` | proxy/optiagent/hook_smart_crusher.go:172-175 | Unless the hashes collide on them, two saves share a key exactly when they save the same diff, the same payload, or arrays that drop the same rows |
| `CompressionStore.HashesExist` | proxy/optiagent/compression_store.go:79-98 | For any two saves there are hashes of the right widths that do not collide on them |
| `CompressionStore.LookupFindsTheOriginal` | proxy/optiagent/compression_store.go:79-98 | Over any run of saves, expiries and resets on whose texts the hashes do not collide, a found diff or log is the very original, a found array one that drops the same rows |
| `CompressionStore.SameArrayIff` | proxy/optiagent/hook_smart_crusher.go:172-200 | A row-drop key finds its own array exactly when the last later save dropping the same rows, if any, saved that array |
| `CompressionStore.TwoArraysOneKey` | proxy/optiagent/hook_smart_crusher.go:78-204 | Two arrays that the dropper does shorten, with the same dropped rows: whatever the hashes, once both are saved the first one's key finds the second |
| `CompressionStore.AnswerRetrieveCalls` | proxy/optiagent/hook_ccr_response.go:75-128 | In place: a choice without a retrieve call is untouched, otherwise its last one is answered from the store and all calls are gone |
| `CompressionStore.InMemoryStore.Save` | proxy/optiagent/compression_store.go:79-87 | The key now holds the value, all others what they held |
| `Hooks.Registry.RegisterHook` | proxy/optiagent/hooks.go:211-225 | Names stay distinct, the name now means this hook, a hook of that name is overwritten where it stood |
| `Hooks.Registry.UnregisterHook` | proxy/optiagent/hooks.go:229-239 | Names stay distinct, the name means nothing, true exactly when it did |
| `Hooks.Perform` | proxy/optiagent/hooks.go:211-256 | Any sequence of registrations, removals and resets leaves distinct names, each with the hook last registered under it |
| `Hooks.SortHooksSorts` | proxy/optiagent/hooks.go:272-278 | The sort puts the same hooks in (priority, name) order |
| `Hooks.RegistrationOrderIsForgotten` | proxy/optiagent/hooks.go:272-278 | Registries with the same name-to-hook map run in the same order |
| `Hooks.HistoryDoesNotMatter` | proxy/optiagent/hooks.go:211-352 | Two histories that leave each name with the same hook make every request and response run the same way |
| `Hooks.RunBeforeHooks` | proxy/optiagent/hooks.go:267-319 | The loop is the fold over enabled hooks in order, with early exit, and records the final payload exactly when it does not exit early |
| `Hooks.LaterHooksNeverRun` | proxy/optiagent/hooks.go:312-314 | After a hook leaves both a status and a body, no later hook has any effect |
| `Hooks.ErrorKeepsPayloadIff` | proxy/optiagent/hooks.go:293-302 | A failed hook leaves the payload alone exactly when it panics, returns none, or returns the prior one |
| `Hooks.RegisterInTurn` | proxy/optiagent/hooks.go:241-249 | The snapshot after registering hooks in turn is that list, so it is sorted exactly when they were registered in (priority, name) order |
| `Hooks.TwoHooksUnsorted` | proxy/optiagent/hooks.go:241-249 | Two hooks registered the other way round come back unsorted |
| `Hooks.FailOpen` | proxy/optiagent/hooks.go:267-361 | When some hooks always fail without a payload and leave the context alone, every request and response runs as if they were not registered |
| `Hooks.PayloadIsWhatHooksSee` | proxy/optiagent/hooks.go:280-302 | What goes upstream is what the hooks see in the context, or the raw payload while they see none |
| `Hooks.RunAfterHooks` | proxy/optiagent/hooks.go:325-361 | The loop is the fold of the response body over all enabled hooks in order |
| `Hooks.RequestByHook` | proxy/optiagent/hooks.go:280-319 | Every request, told hook by hook: the enabled hooks run in turn, each on what the one before left with the payload it returned, until one leaves both a status and a body; the payload returned last is the result |
| `Hooks.ResponseByHook` | proxy/optiagent/hooks.go:325-361 | Every response likewise: all enabled hooks run, each sees the body the one before returned, and the body returned last is the answer |
| `Hooks.BodyIsWhatHooksSee` | proxy/optiagent/hooks.go:339-354 | What goes back is what the hooks see as the response |
| `TagZones.OneLiteral` | proxy/optiagent/hook_tag_protector.go:74-94 | At most one pair's opening literal stands at a position |
| `TagZones.OpenTagEnd` | proxy/optiagent/hook_tag_protector.go:208-243 | Where the opening tag ends, for sections, elements and fences |
| `TagZones.TagEndByPlace` | proxy/optiagent/hook_tag_protector.go:208-243 | By characters: a section ends with its literal; an element with the first > behind it, that included, or before the first blank, or with the text; a fence before the first character that is no language character |
| `TagZones.FindNextOpenTag` | proxy/optiagent/hook_tag_protector.go:176-198 | The first place at or after an offset where any opening expression matches, with the matched tag, or none |
| `TagZones.FindOpenPairIndex` | proxy/optiagent/hook_tag_protector.go:250-257 | The second look by literal finds the pair that matched, never -1 |
| `TagZones.FindProtectedZones` | proxy/optiagent/hook_tag_protector.go:134-168 | The walk goes from opening tag to opening tag to the end, and its zones are the closed ones |
| `TagZones.ScanGoesOn` | proxy/optiagent/hook_tag_protector.go:134-168 | Each opening tag is the first one behind the closing literal of the zone before, or behind the opening tag before if that is never closed |
| `TagZones.ZonesAreSound` | proxy/optiagent/hook_tag_protector.go:134-168 | Zones are in bounds, begin with their opening tag, end at the first close after it, and each ends before the next begins |
| `TagZones.EveryOpeningIsCovered` | proxy/optiagent/hook_tag_protector.go:134-168 | Every opening tag behind the walk lies in a zone, or in an opening tag that is never closed |
| `TagZones.ClosedTagIsAZone` | proxy/optiagent/hook_tag_protector.go:134-168 | Where the scan reaches it, an opening tag, a body without the closing literal and the closing literal are a zone with just these bounds, and no other zone meets it |
| `TagZones.ElementIsProtected` | proxy/optiagent/hook_tag_protector.go:134-168 | In particular an element whose literal a > follows at once |
| `TagZones.ProtectedZones` | proxy/optiagent/hook_tag_protector.go:134-168 | All of this for a whole payload |

## Left out

- Rendering, pagination, event streams, translations, seed and sync scripts: UI or I/O.
- Embedders, vector search, token counting, Postgres: foreign calls.
- The square-root confidence band of the projection, and floating-point rounding anywhere: reals and rationals instead.
- Cuts at byte 200 inside a UTF-8 rune; texts are bytes.
- Redis errors: every hook then fails open, which only removes steps from a run.
- Clock skew between proxy and Redis; reading the clock and adding the member are one step in the loop detector, so its member and its score are the same instant.
- Rounding of nanosecond scores to doubles.
- `LoopWindow.BeforeRequest`: nothing says that the response hook stores under the key later read, since it hashes a payload that later hooks may have changed.
- `CcrCache.SameNameIff`: names do not include the virtual key, and the model says nothing about tenants.
- Re-serialisation by `encoding/json` of whatever surrounds the content literals: a string field or a parameter stands for it.
- Content literals that are not valid UTF-8, or not legal JSON; and a message in which the field scan finds another string than its content.
- `rewriteSystemPromptStable`: nothing calls it.
- `compressSingleTrace` and the two dedupe passes of the log compressor are parameters; so are the regular expressions behind line scores.
- `CompressionStore.TryCrushJSONArray`: the similarity threshold is compared exactly, not in doubles.
- `Compressor.CompressMessages`: messages are values in an array, so two entries never alias one map.
- `Hooks.RunBeforeHooks`: logging, latency and metrics; the source's crash of the response runner on a missing context.
- `TagZones.FindNextOpenTag`: the six opening expressions are written as a match test at each offset.
- Token counters, model radar, allow and deny lists, stop-reason tables: they would add easy members only.
