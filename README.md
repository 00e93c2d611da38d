# agent-mail archive core, modelled in Dafny

agent-mail keeps a local mail archive in plain files. The model covers eight parts of it:

- **Receive cycle.** It fetches the unseen messages of an IMAP mailbox and writes each one into its own directory under `messages/`. Then it marks the message `\Seen`.
- **Send path.** It validates the input, checks the attachments, hands the message to SMTP, and mirrors the sent message into `sent/`.
- **Archive writers.** Both cycles use them. They pick a fresh directory name, write `raw.eml` and the bodies, and store the attachments under collision-free names. `metadata.json` is written last.
- **Conversation index.** It lists the archived messages exchanged with one address, oldest first.
- **Address normaliser.** The other parts use it to compare addresses.
- **Configuration validators.** They check the `.env` keys and `polling.json`.
- **Watch coordinator.** It repeats the receive cycle under a lock file until a signal arrives.
- **`on_recieve` hook runner.**

The filesystem is a value: `Fs = map<Path, Node>` from segment paths to directories and files. A `Disk` pairs it with a log of effects (`MadeDir`, `Wrote`, `Removed`). That log makes ordering claims provable, such as "metadata.json is written last" and "`\Seen` only after the save".

Everything outside the core is a parameter:
- the IMAP server and the SMTP transport;
- the MIME parser and the `.env` parser;
- JSON text, as a codec with a round-trip property;
- `Date.parse` and `localeCompare`;
- zod's e-mail check;
- process liveness and the spawned hook;
- the clock.

Each is stated only by what the core relies on.

Modules:
- `FileSystem` and `Text`: the Node `fs`/`path` and string primitives the source uses.
- `Records`: the JSON records.
- `Address`.
- `ArchiveNaming`, `ArchiveLayout`, `ReceiveArchive`, `SendArchive`: the archive writers.
- `Polling`, `Env`.
- `ReceiveCycle`, `Watch`.
- `SendMail`, `Hook`.
- `ArraySort`, `ConversationOrder`, `Conversation`: the index.

The model follows the code where the two differ from the design description:
- **Effective timestamp.** A message with an unparseable `date` is ordered by its `date`, not by `savedAt`. `date ?? savedAt` falls back only when `date` is null, and `Date.parse` then gives NaN, which sorts last.
- **Negative `limit`.** A negative limit drops entries from the end, as `slice(0, limit)` does.
- **Sent-message timestamp.** The sent archive names its directory from the same clock reading it stores as both `date` and `savedAt`.

## Model

| member | source | states |
|---|---|---|
| FileSystem.Join | src/receive/saveMessage.ts:155 | joining a plain name appends it as one segment; ".", "" and ".." are handled as `path.join` does |
| FileSystem.Mkdir | src/receive/saveMessage.ts:99 | non-recursive mkdir succeeds exactly when the path is absent and its parent is a directory; it adds that one directory, logs it and keeps the tree well formed |
| FileSystem.MkdirAll | src/receive/saveMessage.ts:127 | recursive mkdir leaves `p` a directory, only adds ancestors of `p`, keeps everything that was there, logs only `MadeDir`, and changes nothing when `p` exists |
| FileSystem.MkdirAllChild | src/receive/saveMessage.ts:135 | when the parent is already a directory, recursive mkdir is a single mkdir |
| FileSystem.WriteFile | src/receive/saveMessage.ts:137 | writing succeeds exactly when the parent is a directory and the target is not a directory; the file then holds exactly the data |
| FileSystem.CreateExclusive | src/receive/watchLoop.ts:46 | `open(.., "wx")` fails with EEXIST exactly when the path exists and otherwise creates the file with the data |
| FileSystem.ReadFile | src/config/polling.ts:44 | reading succeeds exactly on a file and returns its bytes; ENOENT exactly when nothing is there |
| FileSystem.RemoveForce | src/receive/watchLoop.ts:52 | `rm(.., {force: true})` removes the file and succeeds also when nothing is there |
| FileSystem.CopyFile | src/send/saveSentMessage.ts:114 | copying makes the target hold the source file's node, and only succeeds when the source is a file |
| FileSystem.Basename | src/receive/saveMessage.ts:44 | the base name never contains `/` |
| FileSystem.BasenameOfName | src/receive/saveMessage.ts:44 | a name without `/` is its own base name |
| FileSystem.Extname | src/receive/saveMessage.ts:83 | the extension is empty or starts at the last dot, is a suffix of the name, and never the whole name |
| FileSystem.ExtnameSuffix | src/receive/saveMessage.ts:83 | the extension is the tail of the name |
| FileSystem.ExtnameLastDot | src/receive/saveMessage.ts:83 | `extname("archive.tar.gz")` is ".gz" |
| FileSystem.ExtnameLeadingDot | src/receive/saveMessage.ts:83 | `extname(".bashrc")` is "" (a leading dot is not an extension) |
| FileSystem.Stem | src/receive/saveMessage.ts:84 | `basename(p, ext)` followed by the extension gives the name back |
| FileSystem.Resolve | src/send/sendMail.ts:59 | `path.resolve` against a clean working directory yields a clean absolute path (no "", "." or ".." segment) |
| Text.TrimStart | src/mail/address.ts:4 | drops exactly a leading whitespace run |
| Text.TrimEnd | src/mail/address.ts:4 | drops exactly a trailing whitespace run |
| Text.Trim | src/mail/address.ts:4 | the result has no edge whitespace and is a slice of the input (TrimSlice) |
| Text.TrimSlice | src/mail/address.ts:4 | the trimmed text is the input minus its leading and trailing whitespace |
| Text.TrimIdempotent | src/mail/address.ts:4 | trimming twice is trimming once |
| Text.TrimFixedPoint | src/mail/address.ts:4 | a string is unchanged by trim exactly when it has no edge whitespace |
| Text.TrimPadded | src/send/sendMail.ts:44 | whitespace around a clean word is removed and the word kept |
| Text.ToLower | src/mail/address.ts:4 | lower-casing keeps the length |
| Text.ToLowerIdempotent | src/mail/address.ts:4 | lower-casing twice is lower-casing once |
| Text.TrimToLowerCommute | src/mail/address.ts:4 | trimming and lower-casing commute |
| Text.NatToString | src/receive/saveMessage.ts:130 | decimal digits with no leading zero |
| Text.IntToString | src/hooks/runOnRecieveHook.ts:77 | a non-empty rendering that starts with `-` exactly for negative numbers |
| Text.NatToStringValue | src/receive/saveMessage.ts:130 | the digits denote the number |
| Text.ParseIntPrefix | src/config/env.ts:13 | `parseInt(v, 10)` is a number exactly when, after leading whitespace and an optional sign, a digit follows |
| Text.ParseIntPrefixOfNat | src/config/env.ts:13 | `parseInt` reads back any rendered natural number |
| Text.Split | src/send/sendMail.ts:43 | splitting gives at least one piece and no piece holds a separator |
| Text.SplitKeepsText | src/send/sendMail.ts:43 | the pieces concatenate to the input with only the separators removed |
| Text.SplitAtSeparator | src/send/sendMail.ts:43 | splitting at the first separator gives the text before it, then the split of the rest |
| Text.Utf8Encode | src/receive/saveMessage.ts:140 | the UTF-8 bytes are at least as many as the characters, empty exactly for the empty text |
| Records.AsString | src/conversation/queryConversation.ts:22 | `z.string()` accepts exactly a JSON string and returns its text |
| Records.AsNullableString | src/conversation/queryConversation.ts:17 | `z.string().nullable()` accepts exactly a string or null |
| Records.StringItems | src/conversation/queryConversation.ts:18 | an array is accepted exactly when every item is a string, item for item |
| Records.AsStrings | src/conversation/queryConversation.ts:18 | an accepted array is the JSON array of those strings |
| Records.StringsRoundTrip | src/conversation/queryConversation.ts:18 | a written list of strings reads back unchanged |
| Records.ParseReceivedRecord | src/conversation/queryConversation.ts:16-24 | the received schema accepts exactly the objects whose seven keys have the required types |
| Records.ParseSentRecord | src/conversation/queryConversation.ts:26-36 | the sent schema accepts exactly the objects whose nine keys have the required types |
| Records.ReceivedRecordRoundTrip | src/receive/saveMessage.ts:173-185 | the metadata a receive writes passes the index's received schema with every field it keeps intact |
| Records.ReceivedAddressesRead | src/receive/saveMessage.ts:176-177 | `from` and `to` are read back as written |
| Records.ReceivedScalarsRead | src/receive/saveMessage.ts:175-182 | `messageId`, `subject`, `date`, `savedAt` and the attachments array are read back as written |
| Records.SentRecordRoundTrip | src/send/saveSentMessage.ts:125-137 | the metadata a send writes passes the index's sent schema with every field it keeps intact |
| Records.SentAddressesRead | src/send/saveSentMessage.ts:127-130 | `from`, `to`, `cc` and `bcc` are read back as written |
| Records.SentScalarsRead | src/send/saveSentMessage.ts:126-134 | `messageId`, `subject`, `date`, `savedAt` and the attachments array are read back as written |
| Address.RunEnd | src/mail/address.ts:1 | a character-class run of the pattern is maximal: every character in it belongs, the next does not |
| Address.LastTldDot | src/mail/address.ts:1 | the dot the greedy domain part backtracks to is the last one followed by two or more letters |
| Address.MatchAt | src/mail/address.ts:1 | a match starting at a position is an e-mail-shaped token (local part, `@`, domain, dot, two or more letters) |
| Address.MatchesAreTokens | src/mail/address.ts:8 | every match of the global pattern is an e-mail-shaped token |
| Address.NormalizeEmailIdempotent | src/mail/address.ts:3-5 | normalising is idempotent, leaves no edge whitespace and no ASCII capital |
| Address.NormalizeAll | src/mail/address.ts:11-13 | every match is normalised, in order |
| Address.Dedup | src/mail/address.ts:10-15 | spreading an insertion-ordered Set gives each element once and exactly the elements added |
| Address.DedupFirstOccurrenceOrder | src/mail/address.ts:10-15 | the kept elements appear in the order of their first occurrence |
| Address.DedupSnoc | src/mail/address.ts:12 | adding an element to the Set appends it exactly when it is new |
| Address.FlattenMembers | src/mail/address.ts:21-25 | an element of the flattened lists is in one of the lists, and conversely |
| Address.ExtractEmailsFromAddress | src/mail/address.ts:7-16 | the loop over the matches returns exactly the de-duplicated normalised matches |
| Address.ExtractEmailsFromAddressList | src/mail/address.ts:18-28 | the nested loops return exactly the de-duplicated concatenation of every value's addresses |
| Address.AddEach | src/mail/address.ts:21-25 | adding items one by one to the Set gives the Set of everything added |
| Address.EmailsInSpec | src/mail/address.ts:7-16 | the addresses of one value are distinct, normalised, exactly the normalised matches, in first-occurrence order |
| Address.EmailsInAreMatches | src/mail/address.ts:8-13 | an address is extracted exactly when some match normalises to it |
| Address.EmailsInNormalized | src/mail/address.ts:12 | every extracted address is already normalised |
| Address.NoMatchNoEmails | src/mail/address.ts:8 | `?? []`: a value without a match yields no address |
| Address.EmailsInListSpec | src/mail/address.ts:18-28 | the list's addresses are distinct and are exactly those of its values |
| Address.EmailsInListIffMatch | src/mail/address.ts:18-28 | an address is in the list's set exactly when some value holds a match normalising to it |
| Address.InListHasMatch | src/mail/address.ts:18-28 | an address in the list's set comes from a match in one of its values |
| Address.MatchIsInList | src/mail/address.ts:18-28 | every match of every value, normalised, is in the list's set |
| Address.AddressListContainsEmailSpec | src/mail/address.ts:30-33 | the list contains the target exactly when some match equals the normalised target; the target's case and padding do not matter; an empty list contains nothing |
| Address.DisplayNameExample | src/mail/address.ts:7-16 | "Alice <Alice@Example.com>"-style header with a display name yields exactly ["alice@example.com"] |
| Address.DisplayNameMatch | src/mail/address.ts:8 | in the display-name header the only match is the bracketed address |
| Address.DisplayNameSkipsName | src/mail/address.ts:8 | no match starts inside the display name |
| Address.DisplayNameNoMatchBefore | src/mail/address.ts:8 | no match starts before the `<` |
| ArchiveNaming.FormatTimestampBasicForm | src/receive/saveMessage.ts:39-41 | an ISO timestamp becomes `YYYYMMDDThhmmssZ`: the date and time digits in order, 16 characters, `T` at 8 and `Z` last |
| ArchiveNaming.TimestampHasNoSlash | src/receive/saveMessage.ts:39-41 | the compact timestamp is 16 characters with no `/`, so it stays one path segment |
| ArchiveNaming.CompactIso | src/receive/saveMessage.ts:40 | removing `-` and `:` from an ISO timestamp keeps exactly its digit runs and the `T` and millisecond part |
| ArchiveNaming.DropDisallowed | src/send/saveSentMessage.ts:28 | dropping a leading run of disallowed characters leaves a string starting with an allowed one |
| ArchiveNaming.ReplaceDisallowedSpec | src/receive/saveMessage.ts:45 | after replacing each disallowed run by `_` every character is allowed; allowed text is unchanged; it never grows |
| ArchiveNaming.ReplaceRun | src/receive/saveMessage.ts:45 | one disallowed character between allowed stretches becomes exactly one `_` |
| ArchiveNaming.SanitizedStem | src/receive/saveMessage.ts:44-45 | the trimmed, replaced base name uses only the allowed alphabet, has no edge whitespace and no `/` |
| ArchiveNaming.SanitizeFilename | src/receive/saveMessage.ts:43-47 | corrected sanitiser: a non-empty name of allowed characters, no edge whitespace, no `/`, and never "." or ".." |
| ArchiveNaming.SanitizeFilenameAsWritten | src/receive/saveMessage.ts:43-47 | the sanitiser as written: never empty and never contains `/` |
| ArchiveNaming.SanitizeFilenameAgrees | src/receive/saveMessage.ts:43-47 | the corrected and as-written sanitisers agree exactly when the latter does not return "." or ".." |
| ArchiveNaming.SanitizeFilenameIdempotent | src/receive/saveMessage.ts:43-47 | sanitising a sanitised name changes nothing |
| ArchiveNaming.SanitizeFilenameExample | tests/save-message.test.ts:9 | `"  ../../inv@lid?.pdf  "` becomes `"inv_lid_.pdf"` |
| ArchiveNaming.SanitizedStemExample | tests/save-message.test.ts:9 | the steps before the fallback already give `"inv_lid_.pdf"` |
| ArchiveNaming.TrimExample | tests/save-message.test.ts:9 | trimming the example keeps `"../../inv@lid?.pdf"` |
| ArchiveNaming.BasenameExample | tests/save-message.test.ts:9 | its base name is `"inv@lid?.pdf"` |
| ArchiveNaming.ReplaceExample | tests/save-message.test.ts:9 | replacing disallowed characters in `"inv@lid?.pdf"` gives `"inv_lid_.pdf"` |
| ArchiveNaming.DotDotSurvives | src/receive/saveMessage.ts:44-45 | ".." passes trim, basename and replacement unchanged |
| ArchiveNaming.SpaceDotDotSurvives | src/receive/saveMessage.ts:44-45 | " .." comes out of the same steps as ".." |
| ArchiveNaming.SanitizeFilenameAsWrittenEscapes | src/receive/saveMessage.ts:154-155 | as written, ".." and " .." are kept as "..", and joining that onto `attachments/` names the message directory itself |
| ArchiveNaming.DotDotTargetLeavesMessageDir | src/receive/saveMessage.ts:153-156 | as written, an attachment named ".." targets the message directory itself, which exists, so the unique-name search stores it beside the message directory, outside both it and `attachments/` |
| ArchiveNaming.SiblingOfTaken | src/receive/saveMessage.ts:78-95 | a target that is taken is never chosen, and the alternative chosen instead is a sibling of it, never below it |
| ArchiveNaming.DotDotStaysInAttachments | src/receive/saveMessage.ts:153-155 | with the corrected sanitiser an attachment named ".." is stored as `attachments/attachment` |
| ArchiveNaming.FallbackNameAllowed | src/receive/saveMessage.ts:46 | the fallback "attachment" is itself a sanitised name |
| ArchiveNaming.StripUnderscores | src/send/saveSentMessage.ts:28 | the result neither starts nor ends with `_` and only uses characters of the input |
| ArchiveNaming.SanitizeSegment | src/send/saveSentMessage.ts:27-30 | the message-id segment is non-empty, uses only `[a-zA-Z0-9._-]`, has no `/` and no edge `_` |
| ArchiveNaming.FirstFree | src/receive/saveMessage.ts:87-92 | the search returns the least free numbered alternative in range, or none when all are taken |
| ArchiveNaming.UniquePathSpec | src/receive/saveMessage.ts:78-112 | the chosen path is free; it is the original when that is free; otherwise the first free of alternatives 1..10000; none exactly when all 10001 are taken |
| ArchiveNaming.EnsureUniqueFilePath | src/receive/saveMessage.ts:78-95 | the loop returns exactly the unique path of the `name(i).ext` scheme, or the exhaustion error |
| ArchiveNaming.EnsureUniqueMessageDir | src/receive/saveMessage.ts:97-112 | the loop creates and returns exactly the unique directory of the `base_i` scheme, changing nothing else; exhaustion or a failed mkdir leaves the disk unchanged |
| ArchiveNaming.UniquePathShape | src/receive/saveMessage.ts:85-88 | the chosen path is a sibling of the original and a proper name |
| ArchiveNaming.CandidateNameProper | src/receive/saveMessage.ts:88 | every numbered alternative of a proper name is a proper name |
| ArchiveNaming.CandidateNotOriginal | src/receive/saveMessage.ts:88 | no numbered alternative equals the original |
| ArchiveNaming.CandidatesDistinct | src/receive/saveMessage.ts:87-92 | different numbers give different alternatives |
| ArchiveNaming.FileCandidateInjective | src/receive/saveMessage.ts:88 | `name(i).ext` determines `i` |
| ArchiveNaming.DirCandidateInjective | src/receive/saveMessage.ts:104 | `base_i` determines `i` |
| ArchiveNaming.NatToStringInjective | src/receive/saveMessage.ts:104 | different numbers render differently |
| ArchiveNaming.SecondReportName | tests/save-message.test.ts:55 | a second `report.pdf` becomes `report(1).pdf` |
| ArchiveNaming.SecondFileName | tests/save-sent-message.test.ts:42 | a second `file.txt` becomes `file(1).txt` |
| ArchiveLayout.AllocateMessageDir | src/receive/saveMessage.ts:127-135 | the archive root is made, then the unique message directory and its `attachments/`, both fresh and nothing else; a failing root mkdir leaves the disk unchanged |
| ArchiveLayout.MakeMessageDir | src/receive/saveMessage.ts:130-135 | below an existing root: the unique directory and its `attachments/` are added and logged in that order, or nothing changes |
| ArchiveLayout.AbsentIsVacant | src/receive/saveMessage.ts:98 | nothing lies below a path that does not exist |
| ArchiveLayout.WriteBodySpec | src/receive/saveMessage.ts:139-141 | a body file is written exactly when the body is non-empty and then holds its UTF-8 bytes |
| ArchiveLayout.WriteBodies | src/receive/saveMessage.ts:139-146 | `body.txt` and `body.html` are written for exactly the non-empty bodies, in that order, nothing else |
| ArchiveLayout.BodyFileKept | src/receive/saveMessage.ts:139-146 | a written body stays while the directory only grows |
| ArchiveLayout.StoreItem | src/receive/saveMessage.ts:152-164 | one attachment: its unique path, the write or copy, and its record |
| ArchiveLayout.StoreAttachments | src/receive/saveMessage.ts:148-165 | the loop computes exactly the recursive store, only adds files directly in `attachments/`, and on success files every item |
| ArchiveLayout.StoreSpec | src/receive/saveMessage.ts:148-165 | on success each item is stored under a fresh, distinct name derived from its own, with `relativePath` `attachments/<name>`, its content and declared or measured size, logged in item order |
| ArchiveLayout.StoreFrame | src/receive/saveMessage.ts:148-165 | storing only adds files in `attachments/`, whether it succeeds or stops at a failing item |
| ArchiveLayout.StoreStopped | src/receive/saveMessage.ts:148-165 | once an item fails, later items are not stored |
| ArchiveLayout.NamedAfterChoice | src/receive/saveMessage.ts:156-160 | the stored name is the sanitised name or one of its numbered alternatives |
| ArchiveLayout.FiledKept | src/receive/saveMessage.ts:185 | stored attachments stay described by their records while the disk grows |
| ReceiveArchive.EntryText | src/receive/saveMessage.ts:59-65 | `name <address>` when both are truthy, else the address, else the name (when the address is missing), else nothing |
| ReceiveArchive.FormatEntries | src/receive/saveMessage.ts:58-66 | the formatted list has no empty string and at most one item per entry |
| ReceiveArchive.FormatEntriesAppend | src/receive/saveMessage.ts:54-56 | formatting a concatenation of entries concatenates the formatted lists |
| ReceiveArchive.FormatEntriesMembers | src/receive/saveMessage.ts:58-66 | a string is formatted exactly when some entry renders to it |
| ReceiveArchive.FormatAddressListSnoc | src/receive/saveMessage.ts:54-55 | a list of address objects is flattened in order |
| ReceiveArchive.EmptyAddressHidesName | src/receive/saveMessage.ts:64 | an entry with an empty address and a name is dropped (`""` is not nullish) |
| ReceiveArchive.NormalizeHtml | src/receive/saveMessage.ts:114-124 | string html is kept, a buffer is decoded as UTF-8, anything else is absent |
| ReceiveArchive.DateText | src/receive/saveMessage.ts:179 | a missing date is null, a valid one its ISO text, an invalid one makes `toISOString` throw |
| ReceiveArchive.DirectoryNameProper | src/receive/saveMessage.ts:130 | `<timestamp>_uid-<uid>` is a single proper path segment |
| ReceiveArchive.IntToStringHasNoSlash | src/receive/saveMessage.ts:130 | a rendered uid holds no `/` |
| ReceiveArchive.AttachmentName | src/receive/saveMessage.ts:153-154 | the stored name is the sanitised filename or the positional fallback, always a proper name |
| ReceiveArchive.AttachmentItems | src/receive/saveMessage.ts:149-157 | one item per parsed attachment, in order, with its sanitised name and its content |
| ReceiveArchive.MissingFilenameFallback | src/receive/saveMessage.ts:153-154 | an attachment without filename is named `attachment-<index+1>.bin` (sanitised) |
| ReceiveArchive.EmptyFilenameFallback | src/receive/saveMessage.ts:46 | an attachment with an empty filename is named `attachment` |
| ReceiveArchive.PrepareMessageDir | src/receive/saveMessage.ts:127-146 | after the preparation the fresh directory holds exactly `attachments/`, `raw.eml` with the raw bytes, and the non-empty bodies |
| ReceiveArchive.SaveMessage | src/receive/saveMessage.ts:126-191 | a save creates a fresh unique directory under the root, stores raw, bodies, attachments and a metadata record whose fields come from the parsed mail, and logs `metadata.json` last; an invalid date fails; the disk only grows |
| ReceiveArchive.SaveFinish | src/receive/saveMessage.ts:185 | writing the metadata keeps raw, bodies and attachment files and is the last log entry |
| ReceiveArchive.MetadataPathFree | src/receive/saveMessage.ts:185 | `metadata.json` does not exist before it is written and can be written |
| ReceiveArchive.MetadataReadsBack | src/receive/saveMessage.ts:185 | the written metadata decodes and passes the index's received schema unchanged |
| SendArchive.SentDirectoryNameProper | src/send/saveSentMessage.ts:89-91 | `<timestamp>_msg-<segment>` is a single proper path segment |
| SendArchive.MissingMessageIdName | src/send/saveSentMessage.ts:90 | without a message id the directory is `<timestamp>_msg-message` |
| SendArchive.SegmentKept | src/send/saveSentMessage.ts:27-30 | a segment already clean is kept as it is |
| SendArchive.SentItems | src/send/saveSentMessage.ts:108-114 | one copy item per attachment path, named after the sanitised base name of the resolved path |
| SendArchive.PrepareSentDir | src/send/saveSentMessage.ts:87-104 | the fresh directory holds exactly `attachments/` and the non-empty bodies, no `raw.eml` |
| SendArchive.SaveSentMessage | src/send/saveSentMessage.ts:83-143 | a sent save creates a fresh unique directory, stores bodies and copied attachments, writes `from: [from]`, `date == savedAt == now` and no raw file, and logs `metadata.json` last |
| SendArchive.SentFinish | src/send/saveSentMessage.ts:137 | writing the metadata keeps bodies and attachments and is the last log entry |
| SendArchive.SentMetadataPathFree | src/send/saveSentMessage.ts:137 | neither `metadata.json` nor `raw.eml` exists before the metadata is written |
| SendArchive.UnlistedAbsent | src/send/saveSentMessage.ts:94-123 | nothing but `attachments/` and the bodies is created in the directory before the metadata |
| SendArchive.SentAttachmentsOctetStream | src/send/saveSentMessage.ts:117-122 | every sent attachment record has type `application/octet-stream` and is named after its source file |
| SendArchive.SentMetadataReadsBack | src/send/saveSentMessage.ts:137 | the written metadata decodes and passes the index's sent schema unchanged |
| Polling.ParseFields | src/config/polling.ts:7-10 | the schema accepts exactly a non-blank mailbox string and an integer interval of at least 1, returns the trimmed mailbox, and names every refused key |
| Polling.ParsePollingConfig | src/config/polling.ts:17-19 | parsing accepts exactly objects with acceptable `mailbox` and `intervalSeconds` and yields a valid config |
| Polling.PollingJsonParses | src/config/polling.ts:17-19 | a stored config parses back unchanged exactly when it is one the schema produces |
| Polling.Spread | src/config/polling.ts:22-25 | an absent key takes the default, a present key its value, a key present as `undefined` stays undefined |
| Polling.Settle | src/config/polling.ts:24 | treating an `undefined` value as absent keeps present values |
| Polling.ApplyPollingDefaultsSpec | src/config/polling.ts:21-26 | with defaults applied the result is valid, takes every given value (mailbox trimmed) and the default for every missing one, and fails exactly on an unacceptable given value |
| Polling.DefaultsApplied | tests/polling.test.ts:13-16 | an empty partial gives the default INBOX/60 config |
| Polling.UndefinedIntervalRefused | src/config/polling.ts:21-26 | as written, an interval present as `undefined` is refused; corrected, it takes the default |
| Polling.WritePollingConfig | src/config/polling.ts:28-36 | the written file holds the encoding of exactly the defaulted config; a refused partial writes nothing and returns the schema's error; a failing mkdir or write is reported as a write failure |
| Polling.ReadPollingConfig | src/config/polling.ts:38-58 | a missing file is "not found"; a successful read is a valid config from an existing file |
| Polling.TryReadPollingConfig | src/config/polling.ts:60-73 | a missing file gives null; otherwise the result is exactly that of the read |
| Polling.WriteThenRead | tests/polling.test.ts:19-37 | a config that was written reads back as the same config |
| Env.PortFromString | src/config/env.ts:7-20 | a port is accepted exactly when `parseInt` gives an integer in 1..65535, which is returned; a missing key is "required" |
| Env.BoolFromString | src/config/env.ts:22-39 | a flag is accepted exactly when its trimmed lower-cased text is "true" or "false", and is true exactly for "true" |
| Env.TrimmedEmail | src/config/env.ts:42 | the e-mail key is accepted exactly when its trimmed text is an e-mail, which is returned |
| Env.TrimmedText | src/config/env.ts:43 | host and user keys are accepted exactly when non-blank and are returned trimmed |
| Env.VerbatimText | src/config/env.ts:47 | password keys are accepted exactly when non-empty and returned untrimmed |
| Env.IssuesOf | src/config/env.ts:41-53 | each key yields no issue exactly when accepted, else one |
| Env.Checked.Issues | src/config/env.ts:41-53 | the issues, in key order, are empty exactly when every key is accepted |
| Env.ParseMailEnv | src/config/env.ts:55-71 | the environment parses exactly when every key is accepted; otherwise the issues are returned, never empty |
| Env.ParsedConfigFields | src/config/env.ts:55-71 | a parsed config takes each field from its key: trimmed e-mail, hosts and users, ports in range, flags, untrimmed passwords |
| Env.EmptyEnvMissesEveryKey | tests/env.test.ts:31-41 | an empty environment fails with one "required" issue per key, in key order |
| Env.PortExamples | tests/env.test.ts:25-27 | "465" and "993" parse to the ports 465 and 993 |
| Env.SecureRefusesYes | tests/env.test.ts:43-46 | `SMTP_SECURE=yes` is refused as an invalid type |
| Env.MissingAmong | src/config/env.ts:157-160 | the missing keys are exactly the listed keys that are unset or blank, in order |
| Env.NothingSetMissesAll | src/config/env.ts:157-160 | with nothing set every key is missing |
| Env.MissingKeyRefused | src/config/env.ts:157-163 | a key reported missing also makes the parse fail with an issue for that key |
| Env.RefusedKeyReported | src/config/env.ts:41-53 | a refused key appears among the issues |
| Env.ValidateEnvFile | src/config/env.ts:142-172 | validation fails only on an unreadable path; it reports existence, the missing keys, and is valid exactly when the file exists and parses |
| Env.MissingFileMissesAll | src/config/env.ts:150-151 | a missing file validates as absent with every key missing |
| Env.LoadMailEnvConfig | src/config/env.ts:109-132 | loading fails with "not found" exactly for a missing file, and otherwise yields exactly the parse of the file |
| Env.LoadAgreesWithValidate | src/config/env.ts:109-172 | loading succeeds exactly when validation says the file is valid |
| ReceiveCycle.ResolveMailboxForReceive | src/receive/receiveOnce.ts:22-29 | a non-blank explicit mailbox wins; otherwise the stored config's mailbox, or INBOX when there is none |
| ReceiveCycle.NormalizeFlags | src/receive/receiveOnce.ts:31-41 | a Set or array of flags is listed in order, anything else is empty |
| ReceiveCycle.ResolveUid | src/receive/receiveOnce.ts:120-126 | a numeric uid is used, else the sequence id; a non-finite uid is refused |
| ReceiveCycle.PrepareSave | src/receive/receiveOnce.ts:105-133 | a message is saved exactly when it was fetched with a source that parses and a finite uid, with those bytes, uid and flags |
| ReceiveCycle.ArchiveOne | src/receive/receiveOnce.ts:128-133 | the disk only grows, whether the save succeeds or fails part-way; a successful save leaves the message's `metadata.json` on disk; an invalid date makes the save fail |
| ReceiveCycle.HandleMessage | src/receive/receiveOnce.ts:104-142 | one message ends in exactly one outcome that agrees with the server; its metadata exists when it was saved; a message that was not fetched leaves the disk unchanged; a failed save keeps what it wrote and is counted as failed (an invalid date always is) |
| ReceiveCycle.ProcessUnseen | src/receive/receiveOnce.ts:86-143 | the loop: `found` is the number of ids, `saved + failed == found`, `saved == seenMarked`, each outcome agrees with the server, and the events are the trace of the outcomes |
| ReceiveCycle.SeenOnlyAfterSave | src/receive/receiveOnce.ts:128-137 | every `\Seen` event directly follows the save of the same message |
| ReceiveCycle.SavedAreSeen | src/receive/receiveOnce.ts:135-137 | the number of saved messages equals the number of `\Seen` events |
| ReceiveCycle.AllAgreeMeans | src/receive/receiveOnce.ts:103-143 | every message's outcome agrees with the server |
| ReceiveCycle.CountStored | src/receive/receiveOnce.ts:136 | the saved count never exceeds the messages |
| ReceiveCycle.ReceiveOnce | src/receive/receiveOnce.ts:71-161 | the mailbox is resolved and the environment loaded before anything is written; a failure changes nothing; a summary has `saved + failed == found`, `saved == seenMarked`, and `found == 0` when the search returned false |
| Watch.ReadPidFromLockFile | src/receive/watchLoop.ts:27-40 | a pid is read exactly when the lock file exists, parses and holds an integer `pid` |
| Watch.OwnLockNamesOwner | src/receive/watchLoop.ts:46-48 | the lock file this process writes names its own pid |
| Watch.MkdirParentKeepsLock | src/receive/watchLoop.ts:43 | making the lock's parent directory neither creates nor changes the lock file |
| Watch.AcquireWatchLock | src/receive/watchLoop.ts:42-68 | the lock is created when absent; a live owner is refused with nothing changed; a stale lock is removed and re-created in a second attempt; on success the lock holds this process's pid and nothing else changed |
| Watch.StopFlag.constructor | src/receive/watchLoop.ts:79 | the watch starts not stopped, with no warning |
| Watch.StopFlag.Stop | src/receive/watchLoop.ts:81-86 | the first signal sets the flag and warns once; later signals change nothing |
| Watch.StopFlag.Deliver | src/receive/watchLoop.ts:88-92 | a batch of signals stops the watch exactly when it is non-empty, warning only for the first signal ever |
| Watch.ReceiveCycleOnce | src/receive/watchLoop.ts:100-112 | a failed cycle is reported and the loop goes on; the disk only grows |
| Watch.Round | src/receive/watchLoop.ts:99-117 | one turn: a cycle, a look at the flag, and a sleep of the configured length only when not stopped |
| Watch.RoundExtends | src/receive/watchLoop.ts:99-117 | a quiet history extended by one round stays a loop history, ending in the stop when the round saw a signal |
| Watch.RunCycles | src/receive/watchLoop.ts:99-117 | the loop runs until a signal is seen and the lock file stays in place while it does |
| Watch.Wrapped | src/receive/watchLoop.ts:91-123 | handlers on, the loop, handlers off and the lock release form a stopped-by-signal trace |
| Watch.WatchLoop | src/receive/watchLoop.ts:76-124 | an unreadable polling config fails before the lock; a refused lock runs nothing; otherwise the loop ends by a signal with one warning, every sleep is the configured interval, no cycle or sleep follows the signal, and the lock is released |
| Watch.NoCycleAfterStop | src/receive/watchLoop.ts:99 | after a signal is seen no further cycle or sleep happens |
| SendMail.TrimAll | src/send/sendMail.ts:24-30 | each accepted list item is trimmed |
| SendMail.BadAddresses | src/send/sendMail.ts:24-26 | a list yields no issue exactly when every trimmed item is an e-mail |
| SendMail.BlankEntries | src/send/sendMail.ts:30 | an attachment list yields no issue exactly when no item is blank |
| SendMail.NonBlank | src/send/sendMail.ts:44-45 | the kept pieces are exactly the non-empty trimmed pieces |
| SendMail.ParseAddressList | src/send/sendMail.ts:41-48 | a list is accepted exactly when it has a piece and every piece is an e-mail; the result is the trimmed non-empty pieces |
| SendMail.AddressesAreCleanPieces | src/send/sendMail.ts:41-48 | accepted addresses are non-empty e-mails without edge whitespace, `,` or `;` |
| SendMail.AddressListKeepsPieces | src/send/sendMail.ts:42-45 | every non-blank piece of the text is among the accepted addresses |
| SendMail.BadPieceRefused | tests/send-input.test.ts:10-11 | one piece that is not an e-mail refuses the whole list |
| SendMail.TwoAddresses | tests/send-input.test.ts:5-7 | `"a, b"` parses to `[a, b]` |
| SendMail.NoIssuesIffAcceptable | src/send/sendMail.ts:22-39 | the schema raises no issue exactly when the input is acceptable |
| SendMail.ParseSendMailInput | src/send/sendMail.ts:50-52 | the input is accepted exactly when acceptable; an accepted input is trimmed field by field with defaults `[]`; a refused one returns every issue |
| SendMail.AcceptedRecipientsClean | src/send/sendMail.ts:22-39 | accepted recipients are trimmed e-mails, attachments non-empty, and a body is present |
| SendMail.DefaultsAreEmpty | src/send/sendMail.ts:25-30 | omitted `cc`, `bcc` and attachments default to empty lists |
| SendMail.MissingBodyRefused | tests/send-input.test.ts:14-20 | an input without text or html is refused with the body issue |
| SendMail.ResolveAll | src/send/sendMail.ts:59 | every attachment path is resolved against the working directory |
| SendMail.FirstMissing | src/send/sendMail.ts:58-61 | the first inaccessible attachment, with all before it accessible, or none |
| SendMail.CheckAttachments | src/send/sendMail.ts:58-61 | the loop finds the first missing attachment and records exactly the accesses up to it |
| SendMail.FirstMissingAt | src/send/sendMail.ts:58-61 | a missing path with all before it present is the first missing one |
| SendMail.ArchiveSent | src/send/sendMail.ts:86-101 | archiving the sent message either files it under the sent root or logs a warning; the disk only grows |
| SendMail.Dispatch | src/send/sendMail.ts:58-104 | a missing attachment stops before the transport; a failed transport archives nothing; a delivered message returns its id and is archived best-effort |
| SendMail.Send | src/send/sendMail.ts:54-105 | validation, then configuration, then attachments, then transport, then archive; any error leaves the disk unchanged |
| SendMail.TransmittedOnlyAfterChecks | src/send/sendMail.ts:58-73 | every attachment was checked and present before the message was handed to the transport |
| Hook.StringifyNullable | src/hooks/runOnRecieveHook.ts:22-28 | a string is kept, anything else becomes "" |
| Hook.MessageVariables | src/hooks/runOnRecieveHook.ts:75-85 | the hook sets exactly the eleven `AGENTMAIL_*` variables |
| Hook.HookEnv | src/hooks/runOnRecieveHook.ts:73-86 | the inherited environment with the message variables overriding it |
| Hook.HookProcessResult | src/hooks/runOnRecieveHook.ts:46-59 | exit code 0 succeeds; otherwise the signal is reported if any, else the code; a spawn error rejects |
| Hook.RunOnRecieveHook | src/hooks/runOnRecieveHook.ts:63-90 | no hook file means not executed; otherwise the hook runs with the message environment and succeeds exactly on exit code 0 |
| Hook.MetadataFileInDir | src/hooks/runOnRecieveHook.ts:84-85 | the metadata-file variable is the message directory followed by `/metadata.json` |
| Hook.JoinedListSplitsBack | src/hooks/runOnRecieveHook.ts:80-81 | a comma-joined address list splits back into the addresses when none contains a comma |
| Hook.HookExample | tests/on-recieve-hook.test.ts:78-82 | uid 42 and subject "Hook me" give the variables "on_recieve", "42" and "Hook me" |
| Hook.EventVariable | src/hooks/runOnRecieveHook.ts:75 | the event variable is "on_recieve" |
| Hook.UidVariable | src/hooks/runOnRecieveHook.ts:77 | the uid variable is the rendered uid |
| Hook.SubjectVariable | src/hooks/runOnRecieveHook.ts:79 | the subject variable is the subject or "" |
| ArraySort.InsertPermutes | src/conversation/queryConversation.ts:39 | inserting adds exactly the new element |
| ArraySort.InsertSorted | src/conversation/queryConversation.ts:39 | inserting into a sorted list keeps it sorted under a consistent comparator |
| ArraySort.InsertionSortSpec | src/conversation/queryConversation.ts:39 | the sort returns a sorted permutation of its input |
| ArraySort.InsertionSortSorted | src/conversation/queryConversation.ts:39 | the sorted result is ordered under a consistent comparator |
| ArraySort.InsertionSortPermutes | src/conversation/queryConversation.ts:39 | the sorted result has the same elements, each as often |
| ArraySort.Sort | src/conversation/queryConversation.ts:39 | sorting the array in place leaves it holding the sorted sequence of its old contents |
| ArraySort.InsertLast | src/conversation/queryConversation.ts:39 | one pass inserts the next element into the sorted prefix and leaves the rest alone |
| ArraySort.ShiftGreater | src/conversation/queryConversation.ts:39 | the elements greater than the one being inserted move one place right, the rest stay |
| ConversationOrder.CompareConsistent | src/conversation/queryConversation.ts:39-60 | with a total collation the comparator is reflexive, antisymmetric in sign and transitive |
| ConversationOrder.SortEntriesSpec | src/conversation/queryConversation.ts:38-61 | the entries come back sorted by the comparator, each as often as before |
| ConversationOrder.SortedMeaning | src/conversation/queryConversation.ts:40-59 | in sorted order unparseable timestamps come last, timestamps ascend, and equal timestamps are ordered by directory |
| ConversationOrder.SortByConversationDate | src/conversation/queryConversation.ts:38-61 | the in-place sort leaves the array holding the sorted entries |
| Conversation.ChildDirs | src/conversation/queryConversation.ts:66 | the listing keeps exactly the names that are directories, joined onto the base |
| Conversation.ListSubdirectories | src/conversation/queryConversation.ts:63-75 | a missing base lists nothing; a file fails; every listed path is a subdirectory |
| Conversation.ListSubdirectoriesComplete | src/conversation/queryConversation.ts:63-75 | when the listing is complete, a path is listed exactly when it is a subdirectory |
| Conversation.ReadJsonFile | src/conversation/queryConversation.ts:77-84 | a readable file gives its decoded JSON, anything else null |
| Conversation.PickEntrySpec | src/conversation/queryConversation.ts:90-153 | a directory gives an entry exactly when its metadata parses and involves the sender, and the entry carries the record's fields and the directory |
| Conversation.Collect | src/conversation/queryConversation.ts:90-114 | the scan keeps at most one entry per directory |
| Conversation.CollectMembers | src/conversation/queryConversation.ts:90-114 | an entry is kept exactly when some directory gives it |
| Conversation.CollectLoop | src/conversation/queryConversation.ts:90-114 | the loop with `continue` computes exactly the scan |
| Conversation.ScanDirectories | src/conversation/queryConversation.ts:90-154 | the loop over directories computes exactly the entries of the scan |
| Conversation.QueryReceivedMessages | src/conversation/queryConversation.ts:86-117 | exactly the received entries of the listed directories |
| Conversation.QuerySentMessages | src/conversation/queryConversation.ts:119-157 | exactly the sent entries of the listed directories |
| Conversation.MessagesSpec | src/conversation/queryConversation.ts:86-157 | an entry is returned exactly when some subdirectory of the root gives it |
| Conversation.MissingRootIsEmpty | src/conversation/queryConversation.ts:69-70 | a missing archive root gives no entry and no error |
| Conversation.ScanEntriesMatch | src/conversation/queryConversation.ts:100-140 | every received entry is from the sender, every sent entry names the sender in `to`, `cc` or `bcc` |
| Conversation.Limit | src/conversation/queryConversation.ts:169-173 | `slice(0, limit)`: a prefix; all without a limit; `limit` entries for a non-negative one; a negative one drops from the end |
| Conversation.QueryConversation | src/conversation/queryConversation.ts:159-174 | the merged entries are sorted and then limited; a listing error is returned |
| Conversation.SortAndLimit | src/conversation/queryConversation.ts:167-173 | exactly the limited sorted entries |
| Conversation.QueryConversationSpec | src/conversation/queryConversation.ts:159-174 | the result is a sorted permutation of the merged entries, all involving the sender, and only received ones unless sent ones are asked for |
| Conversation.MissingRootsGiveNothing | src/conversation/queryConversation.ts:162-165 | with no archive roots the query is empty |
| Conversation.LimitKeepsOldest | tests/conversation.test.ts:85-124 | a limit keeps the first entries of the sorted list; limit 1 keeps the oldest |
| Conversation.OldestFirst | src/conversation/queryConversation.ts:167 | the first sorted entry is one of the merged entries and precedes every other |

## Left out

- The IMAP client, the SMTP transport and the MIME parser are parameters. Their answers are datatypes, including a failed search, fetch, parse, send or `\Seen` update. Connecting, logging out and the mailbox lock are not modelled.
- `toBuffer` for a stream source is not modelled. A fetched source is either bytes or unusable.
- The hook process and the liveness probe are parameters of type function. Spawning, stdio inheritance and exit codes beyond the close event are not modelled.
- The clock and `Date` are parameters: the current time is an ISO timestamp string (`clocks` per cycle in the watch loop), and `Date.parse` is a partial function.
- `localeCompare` is a parameter required to be a total preorder. Node's ICU collation is not modelled.
- JSON text and `JSON.stringify(.., null, 2)` are a codec required to round-trip. Pretty-printing and the trailing newline are not modelled.
- `dotenv.parse` is a parameter. zod's `.email()` check is a predicate parameter.
- zod issue messages, `formatZodIssues` and error texts are not modelled. Errors are datatypes naming the key or the kind of failure.
- `SENT_MESSAGES_DIR` and `ON_RECIEVE_HOOK_FILE` are imported from `src/config/paths.ts` but not defined in it. They are parameters here, as are all path constants.
- Read and access permissions (`R_OK`) are modelled as existence.
- `readdir` order is an oracle (`Readdir`) listing the children of the base.
- `src/cli.ts` is not part of this model: argument parsing, printing and exit codes are out of scope.
- Logging is not modelled, except for the watch warning on the first signal and the send-archive warning.
- Concurrency is not modelled, nor is a second process racing for the lock file between the check and the re-create.
- Text.ToLower: lower-cases only ASCII capitals. JavaScript's Unicode case mapping is not modelled.
- FileSystem.MkdirAll: an error is treated as atomic. A partly created chain of directories is not modelled.
- FileSystem.Resolve: the working directory is a parameter. Symbolic links are not followed.
- ReceiveCycle.ArchiveOne: states only what the receive loop relies on. The full archive contract is ReceiveArchive.SaveMessage's.
- SendMail.ArchiveSent: states only that the sent message is filed or a warning is logged. The full contract is SendArchive.SaveSentMessage's.
- Watch.ReceiveCycleOnce: states only that the disk grows. The cycle's own contract is ReceiveCycle.ReceiveOnce's.
- Watch.AcquireWatchLock: makes at most two attempts. Without concurrent writers the recursive retry succeeds on its second call.
- Watch.WatchLoop: signals arrive as batches between the loop's looks at the flag. Sleeping is an event, not a delay, and the loop runs until a final non-empty batch.
- ReceiveCycle.ReceiveOnce: the per-message outcomes and events are stated by ReceiveCycle.ProcessUnseen. The summary keeps the counts.
- ReceiveCycle.ProcessUnseen: states the disk it threads only as growing, with `metadata.json` present for every archived message. Each save's files are stated by ReceiveArchive.SaveMessage. The partial files a failed save leaves behind are kept but not described.
- ReceiveArchive.AttachmentName: uses the corrected sanitiser (see Findings), so an attachment named ".", ".." or " .." is stored as `attachments/attachment`. As written, the source stores it beside the message directory, as ArchiveNaming.DotDotTargetLeavesMessageDir shows.
- ReceiveArchive.AttachmentItems: its names come from the corrected sanitiser, as for ReceiveArchive.AttachmentName.
- ReceiveArchive.SaveMessage: stores attachments under the corrected names. It does not model the as-written escape of a ".." attachment out of `attachments/`.
- SendArchive.SentItems: names copies with the corrected sanitiser, so a source file named " .." is copied to `attachments/attachment` rather than beside the message directory.
- SendArchive.SaveSentMessage: stores attachments under the corrected names, as for SendArchive.SentItems.
- ArchiveLayout.StoreAttachments: requires proper names (not "", "." or ".."). The corrected sanitiser always gives one. The as-written ".." case is stated only at the naming level, by ArchiveNaming.DotDotTargetLeavesMessageDir.
- ArchiveLayout.StoreItem: requires a proper name, for the same reason as ArchiveLayout.StoreAttachments.
- Polling.WritePollingConfig: completes the partial config with the corrected defaults (see Findings). So `receive setup` without `--interval` writes an interval of 60, where the source's `applyPollingDefaults` refuses the `undefined` interval and writes nothing. Polling.UndefinedIntervalRefused states both completions for that input.
- Attachment sizes reported by the parser are taken as given. `size` falls back to the content length only when it is missing.

## Findings

| source | as written | input that shows it | evidently intended | confidence | as-written member | corrected member |
|---|---|---|---|---|---|---|
| src/receive/saveMessage.ts:43-47 | `sanitizeFilename` keeps ".." (every character is allowed), and `path.join(attachmentDir, "..")` is the message directory itself, so the attachment is written next to the message directory and the record's `relativePath` is wrong | an attachment whose filename is ".." or " .." | a name that stays inside `attachments/`: "." and ".." fall back to "attachment" | not executed | ArchiveNaming.DotDotTargetLeavesMessageDir | ArchiveNaming.SanitizeFilename |
| src/config/polling.ts:21-26 | `{...DEFAULT_POLLING_CONFIG, ...partial}` copies a key present with value `undefined`, so `receive setup` without `--interval` passes `intervalSeconds: undefined` and the schema refuses it | `{ mailbox: "Support", intervalSeconds: undefined }` | an `undefined` value takes the default, as a missing key does | not executed | Polling.UndefinedIntervalRefused | Polling.ApplyPollingDefaultsSpec |
