# Portiva: a verified model of its stateful cores

Portiva is a desktop terminal and connection manager. Most of it is input and output around a few
cores that hold real state, parse byte streams or must survive failures. This project models those
cores in Dafny and proves what they are for. `dafny verify dfyconfig.toml` checks everything.

| files | what they model |
|---|---|
| `SecretVault`, `SecretStore` | the credential store: in-memory index, JSON file, OS keyring, lazily made master key, three protection formats, migration, rollback, restart and crash |
| `JsonStore` | how JSON files are replaced and recovered after a crash |
| `TerminalOutputBuffer`, `TerminalCoalescing`, `TerminalFlush` | bounded terminal output, merging of events per terminal, and the frame and timer machine that flushes them |
| `TelnetCodec`, `TerminalInput` | the resumable Telnet parser with its replies, the messages the client sends, line endings and single-byte encodings |
| `TerminalSplits`, `SshPanes` | split-pane layouts and the actions on them |
| `FileTree`, `CopyPlan`, `CopyTask` | scanning a tree, copying it, and replacing a target with three renames |
| `RemotePath`, `UploadPlan`, `UploadTask` | remote paths, upload scans and batches, and the run of a plan with blocked directories |
| `Utf8Text`, `ByteSearch`, `Base64`, `Multipart` | form bodies and Base64, with a reference reader |
| `HttpTables`, `HttpWorkspaces`, `HttpWorkspaceStore` | nested HTTP workspaces stored in relational tables |
| `ProxyStream`, `ProxySocks5`, `ProxyConnect` | proxy handshakes over a byte stream |
| `NetworkScanSubnet` | masks and host ranges of IPv4 subnets |

How things are modelled:

- Objects that the program updates in place are classes; each method is proved against a function of
  the old state, and the lemmas are about that function.
- What may fail in the outside world (keyring, file system, database statements, remote server,
  network) is a nondeterministic choice or an input. The environment classes keep a ghost history of
  every durable state, so that "at every moment" includes a crash between any two effects.
- An operation may not give up without a cause: failing calls are counted, or a parameter says whether
  any can fail (`reliable`) and whether somebody may cancel (`cancellable`), and errors are tied to it.
- Encryption is ideal: a sealed value names its key, its associated data and its plaintext, and opens
  under that key and that data only.
- UTF-16 text of the TypeScript sources is a sequence of 16-bit units, Rust text a sequence of
  characters with an explicit UTF-8 encoding, and 32-bit and 8-bit numbers are subset types.
- An operation that the source writes as a loop is a loop here.

## What the code does that one might not expect

Each of these is a lemma or a contract that says exactly when the expected property holds.

- One profile with a blank id makes the next start reject the whole secrets file
  (`SecretVault.ReloadAgrees`).
- Deleting a legacy secret loses it although an error is reported exactly when two calls fail: the
  file cannot be written and the keyring refuses to take the item back
  (`SecretStore.Store.DeleteLocked`).
- When the keyring refuses to delete the item of a legacy secret that was stored anew or migrated,
  the old password stays in the keyring and nothing refers to it any more; with no failing call
  nothing is left behind (`SecretStore.Step`).
- When a JSON file was damaged and its backup is in use, the next write moves the damaged file over
  the only good copy before the new one is in place (`JsonStore.DamagedPrimaryLosesBackup`).
- When the old backup of a JSON file cannot be removed, the temporary file stays behind
  (`JsonStore.Directory.WriteJson`).
- A chunk boundary inside a surrogate pair changes what a bounded buffer keeps
  (`TerminalOutputBuffer.TwoChunks`); chunks made from Rust strings never have one.
- Two writes that cut a CR LF in two send one line break too many
  (`TerminalInput.WritesNormaliseSeparately`).
- Negotiation between two Telnet ends of this kind never stops (`TelnetCodec.NegotiationNeverEnds`).
- A ratio that is not a number survives clamping and makes a layout invalid
  (`SshPanes.ResizeKeeps`), and a promoted pane that was closed in the meantime comes back
  (`SshPanes.ClosingWithAnyPromotion`).
- Below the relative root ".", a failed directory blocks none of its entries
  (`UploadTask.OnlyTheRelativeRootFails`). An entry whose name holds a backslash, which Linux and
  macOS allow, can lead out of its directory and is then sent even if that directory failed
  (`UploadTask.EntryWithoutItsDirectory`, `UploadTask.BackslashIsTried`).
- A file in Base64 of the largest permitted size, or one byte less, is refused: the estimate rounds
  it up (`Multipart.EncodedFileArrives`).
- A multipart payload must not only be free of CR LF "--" boundary; it must not begin with
  "--" boundary either (`Multipart.BodyReadsBack`).
- Base64 text with spare bits set is accepted although it does not encode back to itself
  (`Base64.EncodeOfDecode`).
- A host with a space or control character in it, or a user name with a colon, is sent to an HTTP
  proxy in a form that reads as something else (`ProxyConnect.RequestReadsBack`,
  `ProxyConnect.LoginReadsBack`).
- The limit of 4096 hosts is never reached: a /20 has 4094 and a /19 is refused
  (`NetworkScanSubnet.AcceptedPrefixes`).

## Model

| member | source | states |
|---|---|---|
| SecretVault.LastColonDecides | src-tauri/src/services/secret_store.rs:606-617 | an id splits into profile and label in only one way, since labels hold no colon |
| SecretVault.SecretIdInjective | src-tauri/src/services/secret_store.rs:606-617 | two entries share an id if and only if profile and purpose agree, and none has the account of the master key |
| SecretVault.IdsOnDisk | src-tauri/src/services/secret_store.rs:606-617 | the ids and the account of the master key, letter by letter, since they name what is on disk |
| SecretVault.ReloadAgrees | src-tauri/src/services/secret_store.rs:575-604 | a restart finds the same index if and only if no profile id is blank, and otherwise an empty one |
| SecretVault.LastEntryCounts | src-tauri/src/services/secret_store.rs:575-604 | of several entries with one id the last one counts, and it has a value if it holds one or points to the keyring |
| SecretVault.NewMasterKeyIsInvisible | src-tauri/src/services/secret_store.rs:384-424 | drawing a master key where there was none changes no secret that can be read |
| SecretVault.EntryChangesOneSecret | src-tauri/src/services/secret_store.rs:182-227 | storing an entry changes the secret of its profile and purpose and no other |
| SecretVault.UnusedItemIsInvisible | src-tauri/src/services/secret_store.rs:476-515 | a keyring item that no legacy entry refers to can go without any change of the secrets |
| SecretVault.DeletingRemovesOneSecret | src-tauri/src/services/secret_store.rs:302-349 | removing the keyring item, the entry or both removes the one secret, however far a deletion got |
| SecretStore.DurableReadsAsVault | src-tauri/src/services/secret_store.rs:162-180 | a store started on the file and keyring sees the secrets of the running one |
| SecretStore.RestartConsistent | src-tauri/src/services/secret_store.rs:575-588 | loading the persisted file gives the index in memory |
| SecretStore.ListEntries | src-tauri/src/services/secret_store.rs:558-573 | what is written lists every entry of the index once, in ascending order of ids |
| SecretStore.Store.constructor | src-tauri/src/services/secret_store.rs:162-180 | a new store is consistent and shows the durable secrets |
| SecretStore.Store.Persist | src-tauri/src/services/secret_store.rs:558-573 | replaces the file with the index in the order of ids, or leaves it |
| SecretStore.Store.LoadMasterKey | src-tauri/src/services/secret_store.rs:384-424 | gives the key that the keyring holds; touches no other account, never replaces a key, changes no secret at any moment |
| SecretStore.KeyStaysUsable | src-tauri/src/services/secret_store.rs:384-424 | since no operation overwrites or deletes the master key, it is usable afterwards exactly when it was before |
| SecretStore.Store.EncryptSecret | src-tauri/src/services/secret_store.rs:426-447 | seals the value under the keyring's key, bound to its id |
| SecretStore.Store.SetSecret | src-tauri/src/services/secret_store.rs:182-227 | success is the map update, of the index too, and drops the item of a legacy entry unless a call fails; failure leaves index, items and map; a crash at any point reads as old or new |
| SecretStore.Store.MigrateLegacyKeyringValue | src-tauri/src/services/secret_store.rs:476-488 | migration of a keyring value is invisible, at every moment and whether it succeeds or not; the entry is under the master key afterwards, and its item gone unless a call fails |
| SecretStore.Store.ReplaceWithMasterKeyMetadata | src-tauri/src/services/secret_store.rs:490-515 | re-encrypting an old entry keeps its value, and the old item goes only after the new entry is durable |
| SecretStore.Store.MarkCredentialMissing | src-tauri/src/services/secret_store.rs:517-539 | forgetting the protection of a value that is gone changes nothing that can be read |
| SecretStore.Store.GetSecret | src-tauri/src/services/secret_store.rs:229-283 | answers with the map's value and leaves the map as it was; a legacy entry is under the master key afterwards and its item is gone unless a call fails, or, with its value missing, is marked so; a failure changes no entry and no item; what errors an entry without value or with unknown protection gives |
| SecretStore.Store.DeleteLocked | src-tauri/src/services/secret_store.rs:302-349 | success takes no failing call and removes one entry, its secret and, if it was legacy, its item from the keyring; failure takes one and keeps them, or exactly two, of writing the file and rolling back, and loses the item |
| SecretStore.Store.DeleteForProfile | src-tauri/src/services/secret_store.rs:351-376 | removes exactly the entries, secrets and legacy items of the profile, or some of them, each entry with its item, when it stops at an error; every durable state on the way lacks some of them and nothing else |
| SecretStore.Step | src-tauri/src/services/secret_store.rs:182-376 | one operation does what the map does; it fails only for a failing call, a damaged key, an empty value or an unreadable entry; with at most one failing call a failed operation on one secret changes nothing; no item is left in the keyring without a legacy entry, unless the call that deletes it fails |
| SecretStore.Crash | src-tauri/src/services/secret_store.rs:182-376 | a process that dies at any point of an operation leaves a state to restart on, with the operation done, not done, or for a profile partly done |
| SecretStore.Run | src-tauri/src/services/secret_store.rs:182-376 | over every run of operations, failures, restarts and crashes inside operations, each step satisfies the two rows above |
| JsonStore.CrashLeavesOldOrNew | src-tauri/src/utils/json_store.rs:70-135 | a crash leaves the old or the new contents if and only if the old ones were not just recovered from the backup |
| JsonStore.DamagedPrimaryLosesBackup | src-tauri/src/utils/json_store.rs:13-51 | the concrete disk on which a crash leaves nothing readable |
| JsonStore.Directory.WriteJson | src-tauri/src/utils/json_store.rs:70-135 | whatever fails, the file reads as the old or the new value, at every moment; with at most one failing call the primary file is the new one or the old one; a temporary file stays only if the old backup cannot be removed |
| TerminalOutputBuffer.AppendKeepsLongestTail | src/shared/terminalOutputBuffer.ts:8-62 | an append keeps the longest tail within the limit that splits no surrogate pair, and counts the rest as dropped, unless and only unless the incoming text fills the limit exactly and the join lies inside a pair |
| TerminalOutputBuffer.LongestTailIsUnique | src/shared/terminalOutputBuffer.ts:8-22 | there is only one such tail |
| TerminalOutputBuffer.RustTextIsWellFormed | src/shared/terminalOutputBuffer.ts:8-22 | the UTF-16 text of a Rust string has no lone surrogate |
| TerminalOutputBuffer.PairsAreCharacters | src/shared/terminalOutputBuffer.ts:8-22 | the positions that the buffer avoids are exactly those inside a character |
| TerminalOutputBuffer.ChunkingIndependent | src/shared/terminalOutputBuffer.ts:24-62 | any well-formed chunks give what one append of their concatenation gives, and kept plus dropped is the total |
| TerminalOutputBuffer.TwoChunks | src/shared/terminalOutputBuffer.ts:24-62 | the exact condition for two arbitrary chunks |
| TerminalOutputBuffer.CutPairBreaksChunking | src/shared/terminalOutputBuffer.ts:24-62 | two chunks that share a pair and a limit at which the result differs |
| TerminalCoalescing.CoalesceStep | src/app/usePortivaWorkspace.ts:949-995 | merging one more event into the pending snapshot shows what flushing first would show |
| TerminalCoalescing.CoalescingAgrees | src/app/usePortivaWorkspace.ts:949-995 | one flush of merged events shows what folding in each event shows: preview, status and history |
| TerminalCoalescing.OutputIsShown | src/app/usePortivaWorkspace.ts:253-288 | without previews a pane shows the last 262144 units of what it showed followed by all output, and the same as before if there is none |
| TerminalCoalescing.PreviewThenOutputIsShown | src/app/usePortivaWorkspace.ts:253-288 | after the last preview a pane shows the last 262144 units of it followed by the later output |
| TerminalCoalescing.LastEventIsShown | src/app/usePortivaWorkspace.ts:261-288 | status, size and policy are those of the last event, and history is truncated if and only if it was or some event says so |
| TerminalCoalescing.BoundedChunkSamePreview | src/app/usePortivaWorkspace.ts:253-288 | the bound on pending output never shows in the preview |
| TerminalCoalescing.OutputAccountedFor | src/app/usePortivaWorkspace.ts:949-995 | kept and dropped output add up to what came in, and nothing dropped is reported as undefined |
| TerminalCoalescing.KeptOutputIsSuffix | src/app/usePortivaWorkspace.ts:949-995 | what is kept is the last part of everything received |
| TerminalCoalescing.KeptOutputIsLongestTail | src/app/usePortivaWorkspace.ts:949-995 | of well-formed output the longest tail within 524288 units that splits no pair is kept |
| TerminalCoalescing.ApplyEachRespectsShow | src/app/usePortivaWorkspace.ts:261-288 | later events depend on a pane only through what it shows |
| TerminalFlush.FlushShowsEach | src/app/usePortivaWorkspace.ts:997-1064 | a flush continues the log of a pane by the events that were pending |
| TerminalFlush.FlushKeepsShown | src/app/usePortivaWorkspace.ts:997-1064 | flushing all pending snapshots keeps every open pane in step with its log |
| TerminalFlush.LogsAllAppends | src/app/usePortivaWorkspace.ts:1097-1106 | the log of a pane that stays open gains exactly its events in order |
| TerminalFlush.OpenedPaneGets | src/app/usePortivaWorkspace.ts:997-1106 | a pane opened during a run gets what was pending for it then, and exactly its later events |
| TerminalFlush.WaitingIsTail | src/app/usePortivaWorkspace.ts:949-1106 | what is pending for a terminal is the last part of its events, whether a pane is open or not |
| TerminalFlush.TerminalSnapshotPump.FlushPendingSnapshots | src/app/usePortivaWorkspace.ts:997-1064 | moves every pending event to its pane once and leaves nothing pending |
| TerminalFlush.TerminalSnapshotPump.SchedulePendingSnapshotFlush | src/app/usePortivaWorkspace.ts:1066-1080 | leaves exactly one outstanding callback, the one there was or else a timer if the window is hidden and a frame if not |
| TerminalFlush.TerminalSnapshotPump.OnEvent | src/app/usePortivaWorkspace.ts:1097-1106 | an event is pending after its arrival, with a callback to deliver it |
| TerminalFlush.TerminalSnapshotPump.OnVisibilityChange | src/app/usePortivaWorkspace.ts:1082-1095 | hiding the window replaces the frame by a timer and loses nothing |
| TerminalFlush.TerminalSnapshotPump.OnOpenPane | src/app/usePortivaWorkspace.ts:2569-2597 | a new pane shows what its terminal showed so far and will get what is pending |
| TerminalFlush.TerminalSnapshotPump.OnClosePane | src/app/usePortivaWorkspace.ts:2634-2664 | a closed pane goes, and no other changes |
| TerminalFlush.TerminalSnapshotPump.Run | src/app/usePortivaWorkspace.ts:997-1106 | over every interleaving, with panes opening and closing, each event for an open pane is flushed or pending once and in order, and pending data always has one callback that will fire |
| TerminalFlush.TerminalSnapshotPump.Settle | src/app/usePortivaWorkspace.ts:997-1106 | once the callback has fired, each pane shows what folding in every event shows |
| TerminalFlush.TerminalSnapshotPump.Dispose | src/app/usePortivaWorkspace.ts:1108-1134 | unmounting cancels the callback and touches no pane |
| TelnetCodec.Codec.Process | src-tauri/src/services/tcp_terminal_service.rs:725-803 | output, replies and new state are those of the byte-wise machine |
| TelnetCodec.ProcessChunks | src-tauri/src/services/tcp_terminal_service.rs:725-803 | reads in any chunks give what one read of all bytes gives |
| TelnetCodec.RunConcat | src-tauri/src/services/tcp_terminal_service.rs:725-803 | the machine may stop after any byte and go on later |
| TelnetCodec.ParserFollowsGrammar | src-tauri/src/services/tcp_terminal_service.rs:725-832 | every byte sequence is the print of a token list and a begun token; the machine passes on its data bytes and sends one reply per token that calls for one |
| TelnetCodec.PrintReadBack | src-tauri/src/services/tcp_terminal_service.rs:725-803 | printed tokens are read back as themselves |
| TelnetCodec.PrintedTokensAreObeyed | src-tauri/src/services/tcp_terminal_service.rs:725-832 | a printed token list takes the machine from the data state back to it, with exactly its data and replies |
| TelnetCodec.RepliesInNumbers | src-tauri/src/services/tcp_terminal_service.rs:805-833 | the reply to each of the four commands for every option, in numbers: WILL for DO of 3, 24 and 31, DO for WILL of 0, 1 and 3, and a refusal otherwise (RFC 854) |
| TelnetCodec.TypeInNumbers | src-tauri/src/services/tcp_terminal_service.rs:662-672 | a subnegotiation is answered if and only if it is SEND of the terminal type, by the type with the letters a to z in upper case (RFC 1091) |
| TelnetCodec.SendIsAnswered | src-tauri/src/services/tcp_terminal_service.rs:725-833 | the same for the bytes 255 250 24 1 255 240 |
| TelnetCodec.EscapeTelnetIac | src-tauri/src/services/tcp_terminal_service.rs:638-647 | doubles every byte 255 |
| TelnetCodec.EscapedDataArrives | src-tauri/src/services/tcp_terminal_service.rs:638-647 | escaped input reaches a Telnet peer unchanged and provokes no reply |
| TelnetCodec.NawsArrives | src-tauri/src/services/tcp_terminal_service.rs:674-691 | a peer reads the window size, also when a byte of it is 255 (RFC 1073) |
| TelnetCodec.TerminalTypeArrives | src-tauri/src/services/tcp_terminal_service.rs:662-672 | a peer reads the upper-case terminal type (RFC 1091) |
| TelnetCodec.NegotiationNeverEnds | src-tauri/src/services/tcp_terminal_service.rs:816-833 | two such codecs facing each other answer a negotiation for ever, about the same option |
| TerminalInput.NormalizeLineEndings | src-tauri/src/services/tcp_terminal_service.rs:538-556 | the loop with its one-character look-ahead computes the normalised text |
| TerminalInput.NormalizeJoinsLines | src-tauri/src/services/tcp_terminal_service.rs:538-556 | the normalised text is the lines of the input joined with the replacement |
| TerminalInput.NormalizeKeepsLines | src-tauri/src/services/tcp_terminal_service.rs:538-556 | the lines survive and normalising again changes nothing |
| TerminalInput.WritesNormaliseSeparately | src-tauri/src/services/tcp_terminal_service.rs:538-556 | two writes are normalised like one if and only if they do not cut a CR LF |
| TerminalInput.EncodeDecode | src-tauri/src/services/tcp_terminal_service.rs:472-536 | text is encodable if and only if its characters fit, and decodes to itself |
| TerminalInput.FirstUnencodable | src-tauri/src/services/tcp_terminal_service.rs:472-536 | the error is the first character without a byte |
| TerminalInput.DecodeEncode | src-tauri/src/services/tcp_terminal_service.rs:558-601 | received bytes encode back to themselves if and only if they are in range |
| TerminalInput.TypedTextArrives | src-tauri/src/services/tcp_terminal_service.rs:472-556 | a Telnet peer that decodes what was sent has the typed lines with the chosen ending |
| TerminalInput.EnterInBytes | src-tauri/src/services/tcp_terminal_service.rs:538-556 | the bytes of each line ending in each encoding |
| TerminalInput.DecodedCharacters | src-tauri/src/services/tcp_terminal_service.rs:558-601 | each received byte is the character of its number, or the replacement character for a byte above 127 in ASCII |
| TerminalSplits.SplitLeaves | src/shared/terminalSplits.ts:50-77 | a split shows the new pane once right after its target, and changes the layout if and only if the target is shown |
| TerminalSplits.SplitsInPlace | src/shared/terminalSplits.ts:50-77 | a split puts target and new pane, in this order, in equal parts and in the orientation asked for, in place of the target, and keeps the rest of the tree |
| TerminalSplits.RemoveLeaves | src/shared/terminalSplits.ts:79-99 | removal keeps the other panes in order, and leaves no layout if and only if there are none |
| TerminalSplits.RemovesInPlace | src/shared/terminalSplits.ts:79-99 | the other half of its split takes the place of a removed pane; the rest of the tree stays |
| TerminalSplits.ReplaceLeaves | src/shared/terminalSplits.ts:101-113 | replacement renames one pane in place |
| TerminalSplits.ReplacesInPlace | src/shared/terminalSplits.ts:101-113 | a replacement changes one leaf of the tree |
| TerminalSplits.ResizeChangesOneRatio | src/shared/terminalSplits.ts:115-136 | a resize sets the clamped ratio at its path and no other |
| TerminalSplits.ResizesInPlace | src/shared/terminalSplits.ts:115-136 | as a statement about the whole tree |
| TerminalSplits.ClampIsNearest | src/shared/terminalSplits.ts:227-229 | the clamped ratio is the nearest one between 0.22 and 0.78 |
| TerminalSplits.ResizeKeepsShape | src/shared/terminalSplits.ts:115-171 | a resized layout stays valid if and only if the ratio is a number or the path leads nowhere |
| TerminalSplits.DefaultShowsAll | src/shared/terminalSplits.ts:173-204 | the default layout shows all panes if and only if there are at most four |
| TerminalSplits.DefaultShape | src/shared/terminalSplits.ts:173-204 | the default trees for one to four panes |
| TerminalSplits.LayoutReadsBack | src/shared/terminalSplits.ts:138-171 | a stored layout is read back as itself |
| TerminalSplits.ValidateTerminalSplitLayout | src/shared/terminalSplits.ts:143-171 | the stateful walk accepts exactly those values of unknown type that denote a layout within the depth and leaf limits, with ids and ratios in range |
| TerminalSplits.HeightBelowLeaves | src/shared/terminalSplits.ts:143-171 | the depth limit never decides beyond the leaf limit |
| TerminalSplits.IsTerminalSplitLayout | src/shared/terminalSplits.ts:138-141 | the validator accepts exactly the values that denote a well-shaped layout of at most four panes |
| TerminalSplits.CollectLayoutTerminalIds | src/shared/terminalSplits.ts:217-225 | appends the panes of a layout in order |
| TerminalSplits.LayoutMatchesTerminalIds | src/shared/terminalSplits.ts:206-215 | compares sizes and sets |
| TerminalSplits.MatchesIsPermutation | src/shared/terminalSplits.ts:206-215 | for distinct panes that comparison means each is shown exactly once |
| SshPanes.ClosePanes | src/app/usePortivaWorkspace.ts:2634-2664 | closing removes the pane; the next one becomes primary if needed |
| SshPanes.ClosingWithAnyPromotion | src/app/usePortivaWorkspace.ts:2607-2664 | with any promoted pane the other panes remain if and only if a closed primary is replaced by one that is still open |
| SshPanes.ReplacePanes | src/app/usePortivaWorkspace.ts:2508-2521 | a replaced terminal keeps its place among the panes |
| SshPanes.SplitKeeps | src/app/usePortivaWorkspace.ts:2569-2597 | after a split each pane is shown once and the stored layout matches |
| SshPanes.CloseKeeps | src/app/usePortivaWorkspace.ts:2634-2664 | the same after a close |
| SshPanes.ReplaceKeeps | src/app/usePortivaWorkspace.ts:2508-2521 | the same after a change of X11 forwarding |
| SshPanes.ResizeKeeps | src/app/usePortivaWorkspace.ts:2679-2694 | the same after a resize, if and only if the ratio is a number or the path leads nowhere |
| SshPanes.SplitShown | src/app/usePortivaWorkspace.ts:2569-2597 | what the tab shows after a split: the new pane beside its target, all else in place |
| SshPanes.CloseShown | src/app/usePortivaWorkspace.ts:2634-2664 | what it shows after a close: the other half of the split in its place |
| SshPanes.ReplaceShown | src/app/usePortivaWorkspace.ts:2508-2521 | what it shows after a replacement |
| SshPanes.ResizeShown | src/app/usePortivaWorkspace.ts:2679-2694 | what it shows after a resize |
| SshPanes.ApplyKeeps | src/app/usePortivaWorkspace.ts:2508-2694 | every action keeps the invariant, and a matching layout keeps matching |
| SshPanes.GoodTabShowsEachPaneOnce | src/shared/terminalSplits.ts:37-48 | the resolved layout shows each pane exactly once |
| SshPanes.RunShowsEachPaneOnce | src/app/usePortivaWorkspace.ts:2508-2694 | after any run the tab shows each of its one to four panes once, in a layout the validator accepts, and the default never resets it |
| FileTree.LookupConcat | src-tauri/src/commands/wsl_files.rs:627-697 | looking up a joined path is looking up twice |
| FileTree.RenamedMoves | src-tauri/src/commands/wsl_files.rs:595-625 | a rename moves the whole tree |
| FileTree.RenamedKeeps | src-tauri/src/commands/wsl_files.rs:595-625 | and touches no tree elsewhere |
| CopyPlan.ScanStep | src-tauri/src/commands/wsl_files.rs:655-690 | looking at one entry keeps what is planned, waiting and unread a partition of the source |
| CopyPlan.EntryCovered | src-tauri/src/commands/wsl_files.rs:655-690 | what lies below an entry that was looked at is planned or waiting |
| CopyPlan.ScanCopyPlan | src-tauri/src/commands/wsl_files.rs:627-697 | the scan ends; its plan lists parents first, holds every directory and file once with its counts and bytes, and skips links and special files; a root that is a link to a directory is followed; it fails as unreadable exactly when the root is neither or something below cannot be read |
| CopyTask.CopyEnds | src-tauri/src/commands/wsl_files.rs:699-737 | when every planned item is done the target is the source without links and special files |
| CopyTask.ChangesElsewhere | src-tauri/src/commands/wsl_files.rs:699-820 | a copy leaves everything apart from its target alone |
| CopyTask.CopyingIsSafe | src-tauri/src/commands/wsl_files.rs:498-530 | copying to the staged name leaves the target alone at every moment |
| CopyTask.CopyJob.CopyFileWithProgress | src-tauri/src/commands/wsl_files.rs:739-808 | a file appears complete under its name or not at all; nothing else is left unless a deletion fails |
| CopyTask.CopyJob.ExecuteCopyPlan | src-tauri/src/commands/wsl_files.rs:699-737 | runs the plan to the exact copy, or stops with only the target touched; beside the target nothing is left but missing parent directories, unless a deletion fails |
| CopyTask.CopyJob.ScanAndCopy | src-tauri/src/commands/wsl_files.rs:507-518 | scan, counts and copy in one: the exact copy with the exact counts |
| CopyTask.CopyJob.RemovePath | src-tauri/src/commands/wsl_files.rs:859-869 | removes the tree one path at a time; every state on the way lacks some of it and nothing else |
| CopyTask.RemovingIsSafe | src-tauri/src/commands/wsl_files.rs:595-625 | removing a tree beside the target loses neither tree at any moment |
| CopyTask.CopyJob.ReplaceTargetWithStaged | src-tauri/src/commands/wsl_files.rs:595-625 | in every state and on every return the whole old tree is at the target or the backup, or the whole new tree is at the target; each error says which, and what the file system is then; success leaves neither staged copy nor backup |
| CopyTask.CopyJob.ReplaceOrDiscard | src-tauri/src/commands/wsl_files.rs:520-528 | the same with the staged copy dropped on an error |
| CopyTask.RenamedBack | src-tauri/src/commands/wsl_files.rs:595-625 | moving a tree aside and back changes nothing |
| CopyTask.Exchanged | src-tauri/src/commands/wsl_files.rs:595-625 | the three steps change nothing but the target, and use up staged copy and backup |
| CopyTask.CopyJob.CopyWslTask | src-tauri/src/commands/wsl_files.rs:475-531 | a task ends with the exact copy and nothing else changed; directories and files are counted as completed, links and special files as skipped, and all of them in the total; replacing never loses data; if every deletion works, a failed copy leaves nothing but parent directories, and a failed replacement leaves the file system as it was, or with the old target at the backup; it fails only if a call fails, the task is cancelled, the source cannot be read or a file stands where a directory must be |
| RemotePath.NormalizedHasComponents | src-tauri/src/utils/remote_path.rs:1-29 | a normalised path is made of plain components |
| RemotePath.RenderedIsNormal | src-tauri/src/utils/remote_path.rs:1-29 | such a path normalises to itself |
| RemotePath.PathLaws | src-tauri/src/utils/remote_path.rs:1-29 | both slashes separate; empty components and "." say nothing; ".." takes the last component away |
| RemotePath.NormalForm | src-tauri/src/utils/remote_path.rs:1-29 | the text of the normal form |
| RemotePath.JoinWalks | src-tauri/src/utils/remote_path.rs:1-44 | joining any entry name walks on from the directory, piece by piece |
| RemotePath.JoinAppends | src-tauri/src/utils/remote_path.rs:31-44 | joining a plain name appends one component |
| RemotePath.WithinIsTransitive | src-tauri/src/commands/file_transfer.rs:933-939 | containment passes on |
| RemotePath.WithinMeansPrefix | src-tauri/src/commands/file_transfer.rs:933-939 | the string test means component prefix, except for the relative root |
| RemotePath.StaysBelowIsPrefix | src-tauri/src/utils/remote_path.rs:1-44 | a joined path begins with its directory exactly when the name goes down again whatever it climbs |
| RemotePath.ChildIsWithin | src-tauri/src/commands/file_transfer.rs:933-939 | an entry counts as within its directory if and only if its name leads back into it, and the directory is not the relative root |
| RemotePath.PlainNameStaysBelow | src-tauri/src/utils/remote_path.rs:31-44 | a name without separators and dots stays below its directory |
| RemotePath.BackslashLeadsOut | src-tauri/src/utils/remote_path.rs:1-44 | the name `..\x` leads from /a to /x |
| UploadPlan.ItemsStep | src-tauri/src/commands/file_transfer.rs:734-776 | one directory entry moves its items from unread to planned or waiting, once each |
| UploadPlan.ScanUploadDirectory | src-tauri/src/commands/file_transfer.rs:697-789 | the scan ends; directories, files with their remote paths and sizes, skipped and failed items are exactly those of the tree, and each planned path is an entry of a directory planned before |
| UploadTask.ScanUploadBatch | src-tauri/src/commands/file_transfer.rs:624-695 | a batch plan is exactly the items of its parts; it fails only for an unreadable root or a nested batch |
| UploadTask.PlacedAreNormal | src-tauri/src/commands/file_transfer.rs:697-789 | every planned path is in normal form and as absolute as its root |
| UploadTask.ClearAbove | src-tauri/src/commands/file_transfer.rs:527-560 | what lies below a withheld directory is withheld too, so it need not be blocked |
| UploadTask.FilesFollowDirectories | src-tauri/src/commands/file_transfer.rs:572-590 | a file is sent if and only if every planned directory that contains it, by the string test, was itself ensured |
| UploadTask.DirectoriesFollowDirectories | src-tauri/src/commands/file_transfer.rs:527-546 | the same for directories and those planned before them |
| UploadTask.WithinMeansCovered | src-tauri/src/commands/file_transfer.rs:933-939 | on planned paths the string test means ancestor by components; only "." is above nothing else, and "/" is above all |
| UploadTask.FilesFollowAncestors | src-tauri/src/commands/file_transfer.rs:502-616 | under any outcomes, a file of any scanned plan or batch is sent if and only if every planned directory above it was ensured |
| UploadTask.DirectoriesFollowAncestors | src-tauri/src/commands/file_transfer.rs:502-560 | the same for directories and those planned before them |
| UploadTask.ScannedFilesFollowAncestors | src-tauri/src/commands/file_transfer.rs:502-789 | for a scan below an absolute root: if and only if every planned directory whose components begin its own was ensured |
| UploadTask.ScannedDirectoriesFollowAncestors | src-tauri/src/commands/file_transfer.rs:502-789 | the same for directories |
| UploadTask.TriedWithoutMeansNotWithin | src-tauri/src/commands/file_transfer.rs:527-590 | some outcomes let a path be tried without a directory if and only if it does not count as within it |
| UploadTask.OnlyTheRelativeRootFails | src-tauri/src/commands/file_transfer.rs:502-789 | in a scanned plan a file can be tried below a failed ancestor if and only if that is the relative root |
| UploadTask.EntryWithoutItsDirectory | src-tauri/src/commands/file_transfer.rs:734-776 | an entry can be tried although its directory failed if and only if its name leads out of it or it is the relative root |
| UploadTask.BackslashIsTried | src-tauri/src/commands/file_transfer.rs:734-776 | the file `..\x` found in /a is sent to /x although /a failed |
| UploadTask.ClosesMore | src-tauri/src/commands/file_transfer.rs:527-570 | the list of blocked directories closes off exactly what lies below a failed one |
| UploadTask.EachMarkCounts | src-tauri/src/commands/file_transfer.rs:509-525 | each item is counted exactly once |
| UploadTask.CountersAreCounts | src-tauri/src/commands/file_transfer.rs:509-616 | completed, failed and skipped grow by the number of items that arrived, that failed, and that were withheld or declined |
| UploadTask.TransferTask.UploadPlanTask | src-tauri/src/commands/file_transfer.rs:502-622 | a run records the outcome of each item in order and ends with exactly the items that arrived as completed, those that failed or could not be scanned as failed, and those withheld, declined or not followed as skipped, which add up to the total, and with the bytes of the files that arrived; it breaks off only if it is cancelled |
| Utf8Text.Utf8Injective | src-tauri/src/commands/http.rs:376-383 | no two texts have the same bytes |
| Utf8Text.Utf8Bits | src-tauri/src/commands/http.rs:376-383 | the bytes of a character by their bits (section 3 of RFC 3629) |
| Utf8Text.AtMostIsLexicographic | src-tauri/src/services/secret_store.rs:558-573 | the order of names and ids is lexicographic |
| Base64.EncodeBase64 | src-tauri/src/commands/http.rs:549-574 | the loop over chunks of three computes the encoding |
| Base64.DecodeBase64 | src-tauri/src/commands/http.rs:576-632 | the loop over groups decodes the text without white space, with the error of the first bad group |
| Base64.DecodeOfEncode | src-tauri/src/commands/http.rs:549-632 | decoding gives back every byte string |
| Base64.AcceptsWellPadded | src-tauri/src/commands/http.rs:576-646 | accepted is exactly alphabet text in whole groups with at most two pads at its end |
| Base64.GroupErrors | src-tauri/src/commands/http.rs:582-632 | why a group is refused: too many pads, a pad in the wrong place, or a byte outside the alphabet |
| Base64.FirstBadGroup | src-tauri/src/commands/http.rs:576-632 | the first bad group decides the error |
| Base64.EncodeOfDecode | src-tauri/src/commands/http.rs:549-632 | accepted text encodes back to itself if and only if its spare bits are zero, and its length tells the number of bytes |
| Base64.AlphabetInNumbers | src-tauri/src/commands/http.rs:549-646 | the alphabet and the pad of section 4 of RFC 4648, in ASCII |
| Base64.EncodingKeepsTheNumber | src-tauri/src/commands/http.rs:549-574 | the symbols spell the same number as the bytes (section 4 of RFC 4648) |
| Base64.CompactDropsWhitespace | src-tauri/src/commands/http.rs:577-580 | white space may stand anywhere |
| Base64.CompactKeepsTheRest | src-tauri/src/commands/http.rs:577-580 | and nothing but white space is dropped |
| Base64.EstimateCovers | src-tauri/src/commands/http.rs:435-448 | the size estimate is never too small and at most two bytes too large |
| Multipart.EscapeMultipartHeaderParameter | src-tauri/src/commands/http.rs:483-497 | the loop computes the escaped text |
| Multipart.EscapedBytes | src-tauri/src/commands/http.rs:483-497 | escaping characters is escaping the bytes of the text without control characters |
| Multipart.CleanInPlace | src-tauri/src/commands/http.rs:483-497 | each control character becomes a space and every other character stays in its place |
| Multipart.TrimIsInside | src-tauri/src/commands/http.rs:499-502 | trimming takes white space off both ends and nothing else |
| Multipart.EscapedByteText | src-tauri/src/commands/http.rs:483-497 | quote and backslash get a backslash, other bytes nothing |
| Multipart.QuotedReadsBack | src-tauri/src/commands/http.rs:483-497 | an escaped value in quotes is read back as itself |
| Multipart.PartsAreSafe | src-tauri/src/commands/http.rs:483-509 | no input puts a CR or LF into a header value |
| Multipart.MultipartFileBytes | src-tauri/src/commands/http.rs:423-452 | an accepted file is within its limit and is the given bytes, or what the given Base64 decodes to; each error has its cause |
| Multipart.EncodedFileArrives | src-tauri/src/commands/http.rs:423-452 | a file given in Base64 arrives as it was, if and only if it is two bytes below the limit or shorter |
| Multipart.FirstDelimiter | src-tauri/src/commands/http.rs:371-414 | a delimiter cannot run past the end of a part, so the first one ends it if and only if no payload line starts with the boundary |
| Multipart.TextPartText | src-tauri/src/commands/http.rs:371-384 | a text part, letter by letter |
| Multipart.FilePartText | src-tauri/src/commands/http.rs:385-409 | a file part, letter by letter |
| Multipart.OnePartBody | src-tauri/src/commands/http.rs:371-414 | a body with one part, letter by letter |
| Multipart.FileNameAndType | src-tauri/src/commands/http.rs:385-399 | the file name is "upload" and the type application/octet-stream if none is given or, for the type, if it holds a control character |
| Multipart.BodyReadsBack | src-tauri/src/commands/http.rs:371-414 | a reader of section 5.1.1 of RFC 2046 recovers all parts if and only if no payload line starts with the boundary |
| Multipart.BuildMultipartBody | src-tauri/src/commands/http.rs:356-421 | builds the body of all named parts in order, or reports the first error or the size |
| Multipart.BuiltBodyReadsBack | src-tauri/src/commands/http.rs:356-421 | what was built carries every named part to such a reader, under the same exact condition |
| Multipart.EstimateCoversPayloads | src-tauri/src/commands/http.rs:360-367 | the check before building never counts fewer bytes than the payloads have |
| Multipart.PartSizeCovers | src-tauri/src/commands/http.rs:454-473 | nor does it for a single part, and it is at most two bytes too large for text without white space at its ends |
| HttpTables.KeepWhere | src-tauri/src/services/http_workspace_store.rs:399-439 | deleting rows commutes with choosing a scope |
| HttpTables.RankedIsOrdered | src-tauri/src/services/http_workspace_store.rs:275-393 | rows with rising sort order come out in that order |
| HttpTables.OrderBySorts | src-tauri/src/services/http_workspace_store.rs:275-393 | a query gives the chosen rows, each once, by sort order and then by name |
| HttpWorkspaces.ScopesHere | src-tauri/src/services/http_workspace_store.rs:318-393 | the rows of a workspace are chosen by its id and no others |
| HttpWorkspaces.LoadOfFlatten | src-tauri/src/services/http_workspace_store.rs:164-393 | loading what was saved gives the same nested workspaces in the same order |
| HttpWorkspaces.ProjectPruned | src-tauri/src/services/http_workspace_store.rs:427-436 | the default project goes if and only if it is left without requests |
| HttpWorkspaces.SeededContent | src-tauri/src/services/http_workspace_store.rs:399-426 | what counts as seeded, by id, name and address |
| HttpWorkspaces.DefaultProject | src-tauri/src/services/http_workspace_store.rs:427-436 | which project goes, and that others keep their other requests |
| HttpWorkspaces.PruneKeepsTheRest | src-tauri/src/services/http_workspace_store.rs:399-426 | requests that are not seeded stay, in order |
| HttpWorkspaces.CleanTwice | src-tauri/src/services/http_workspace_store.rs:399-439 | removing seeded content again changes nothing |
| HttpWorkspaces.LoadOfClean | src-tauri/src/services/http_workspace_store.rs:275-439 | after the clean-up, loading gives the saved trees without the seeded content |
| HttpWorkspaces.PruneTwice | src-tauri/src/services/http_workspace_store.rs:399-439 | pruning trees again changes nothing |
| HttpWorkspaceStore.HttpWorkspaceStore.InsertRequests | src-tauri/src/services/http_workspace_store.rs:242-273 | inserts all requests in order, or fails on a repeated id or a failing statement |
| HttpWorkspaceStore.HttpWorkspaceStore.ReplaceWorkspaces | src-tauri/src/services/http_workspace_store.rs:164-240 | all or nothing: the tables are exactly the new rows, or unchanged; a clash means a repeated id |
| HttpWorkspaceStore.HttpWorkspaceStore.LoadWorkspaces | src-tauri/src/services/http_workspace_store.rs:275-316 | reads the nested workspaces that the tables describe |
| HttpWorkspaceStore.HttpWorkspaceStore.RemoveSeededDefaultContent | src-tauri/src/services/http_workspace_store.rs:399-439 | removes exactly the seeded content; one that breaks off changes nothing a later listing shows |
| HttpWorkspaceStore.HttpWorkspaceStore.SaveAll | src-tauri/src/services/http_workspace_store.rs:55-67 | returns exactly what was saved, or fails with the database unchanged, or fails only to read back; with no failing statement it fails if and only if an id is repeated |
| HttpWorkspaceStore.HttpWorkspaceStore.List | src-tauri/src/services/http_workspace_store.rs:39-53 | shows the trees saved last without seeded content, after seeding an empty database |
| HttpWorkspaceStore.EmptyStoreShows | src-tauri/src/services/http_workspace_store.rs:451-461 | what an empty store shows |
| HttpWorkspaceStore.HttpWorkspaceStore.Run | src-tauri/src/services/http_workspace_store.rs:39-67 | over any run with failures every listing shows the last trees that got saved; with no failing statement nothing fails but saving trees that repeat an id |
| HttpWorkspaceStore.ListingIsStable | src-tauri/src/services/http_workspace_store.rs:39-53 | listing is idempotent |
| ProxyStream.TrimmedIsName | src-tauri/src/services/network_proxy_service.rs:251 | trimming takes brackets off the ends of a host and nothing else |
| ProxyStream.NameIsTrimmed | src-tauri/src/services/network_proxy_service.rs:591 | which leaves one name only |
| ProxySocks5.ParsesWhatAgrees | src-tauri/src/services/network_proxy_service.rs:236-292 | an answer of the proxy and what follows it are told apart in one way, by the reading the client does |
| ProxySocks5.SentReadsBack | src-tauri/src/services/network_proxy_service.rs:227-324 | what is sent reads back as the offered methods, the credentials, the port, and the host without the brackets at its ends (sections 3 and 4 of RFC 1928, section 2 of RFC 1929) |
| ProxySocks5.FitHostMeans | src-tauri/src/services/network_proxy_service.rs:251-256 | a host can be sent if and only if its name has 1 to 255 bytes |
| ProxySocks5.AuthenticateSocks5 | src-tauri/src/services/network_proxy_service.rs:294-324 | sends the credentials and reads exactly the two bytes of a success |
| ProxySocks5.EstablishSocks5Connect | src-tauri/src/services/network_proxy_service.rs:221-292 | success if and only if the stream begins with an agreeing answer and host and credentials fit, writes permitting; the unread stream is exactly what follows; each error but a broken-off stream has its cause |
| ProxyConnect.AuthorityReadsBack | src-tauri/src/services/network_proxy_service.rs:586-597 | the authority names the port, without leading zeros, and the host without the brackets at its ends, put in brackets again if and only if it has a colon |
| ProxyConnect.RequestText | src-tauri/src/services/network_proxy_service.rs:174-183 | the request, letter by letter |
| ProxyConnect.RequestReadsBack | src-tauri/src/services/network_proxy_service.rs:174-183 | a proxy reads the target and the login if and only if the authority has no space or control character |
| ProxyConnect.AuthorityIsToken | src-tauri/src/services/network_proxy_service.rs:586-597 | that depends on the name of the host alone |
| ProxyConnect.LoginReadsBack | src-tauri/src/services/network_proxy_service.rs:175-180 | user name and password come apart if and only if the user name has no colon |
| ProxyConnect.StatusOfStatusLine | src-tauri/src/services/network_proxy_service.rs:205-214 | a proper status line gives its code, also with more white space or a plus sign |
| ProxyConnect.StatusOnFirstLine | src-tauri/src/services/network_proxy_service.rs:205-214 | a line break ends the status line |
| ProxyConnect.EstablishHttpConnect | src-tauri/src/services/network_proxy_service.rs:168-219 | success if and only if the first response head is within 8192 bytes and grants the connection, writes permitting; nothing after the head is read; each error has its cause |
| NetworkScanSubnet.PrefixOfMask | src-tauri/src/services/network_scan_subnet.rs:5-17 | the prefix of a netmask is the exact inverse of the mask of a prefix |
| NetworkScanSubnet.PrefixMeansContiguous | src-tauri/src/services/network_scan_subnet.rs:13-17 | a netmask has a prefix if and only if its ones are contiguous from the top |
| NetworkScanSubnet.BoundsOfSubnet | src-tauri/src/services/network_scan_subnet.rs:35-37 | the bit operations give the aligned block around the address |
| NetworkScanSubnet.AcceptedPrefixes | src-tauri/src/services/network_scan_subnet.rs:31-48 | exactly the prefixes from 20 to 32 are accepted; a shorter one is refused with the number of its hosts |
| NetworkScanSubnet.HostsOfSubnet | src-tauri/src/services/network_scan_subnet.rs:35-50 | the hosts are the addresses that share the prefix, in ascending order, without network and broadcast address unless there are at most two |

## Left out

- User interface, windows, notices, keyboard handling, profile and settings stores, tab labels and the settings race in `saveSettings`: nothing that spans operations in the way the cores above do.
- Locks and threads: each store holds one mutex for a whole operation, so operations are atomic steps here. Pane actions are atomic too, except for the promoted pane, which is captured early.
- Clocks, time stamps and progress speed are parameters or absent; so are the texts of error messages and the last scan error.
- Wrap-around and saturation of 64-bit counters and sizes: counters are unbounded numbers.
- SecretStore: nonces, AES-GCM and DPAPI internals are ideal; legacy DPAPI values are a fixed partial map from stored values to plaintexts.
- SecretStore: a keyring, random or file call that fails is assumed to have no effect, and the file is written in one atomic step; what its own replacement steps do is the subject of JsonStore.
- SecretStore: the file is assumed to have been written by the program, so that entries carry the id of their profile and purpose; the order of entries in the file is arbitrary.
- SecretStore.Run: starts from a store without blank profile ids and stores none, since one such id makes the next start reject the file; a failed deletion of a whole profile may have removed some of its secrets.
- SecretStore.Crash: speaks of the secrets that can be read, not of a keyring item that a crash between storing a new entry and deleting the old item leaves unused.
- SecretStore.Store.StoreEntry: one method for the same three steps (replace, persist, restore) that the source repeats in three places.
- JsonStore: a file system in which renames are atomic and durable in order; flushing to disk and the parent directory's synchronisation are not modelled.
- TerminalFlush: the separate copy of the active terminal's snapshot, which is updated by the same merge, and tabs without terminals; replacing a terminal is a close and an open.
- TerminalCoalescing: fields that only the newest event decides are merged as one value.
- Reference identity of JavaScript objects: a layout or tab is unchanged when it is structurally equal.
- TerminalSplits.IsTerminalSplitLayout: values are finite trees; cyclic objects and objects with getters are not modelled.
- TelnetCodec: failing writes to the socket.
- TerminalInput: the multi-byte encodings and their streaming decoders.
- CopyTask: temporary, staged and backup names are beside their files and assumed free, as their random parts intend; permissions, conflict questions and pauses are choices without further effect.
- CopyTask.CopyJob.RemovePath: paths go in any order, which includes the order from the leaves up that the file system requires.
- UploadPlan: races with other programs while scanning; a root that is a symbolic link is what it leads to.
- UploadTask.TransferTask.UploadPlanTask: the outcome of ensuring a directory and of sending a file, with its conflict questions, is an input; requires only that no planned directory is the empty path, which scans guarantee (`UploadTask.NormalAreNamed`).
- Multipart: the fresh boundary made from the clock is a parameter without CR; the reader accepts no padding after a boundary, and headers in the order the builder writes them.
- Base64: characters of the decoded input are its UTF-8 bytes, as in the source.
- HttpWorkspaceStore: SQLite itself, schema migration from version 1, and JSON columns, which hold their values unchanged; rows that tie in sort order and name come in order of insertion.
- ProxyConnect: white space beyond ASCII in a status line and the replacement of invalid UTF-8; proxy discovery, TLS proxies and time limits.
- ProxyStream.Stream: the proxy's bytes are fixed in advance and do not depend on what it is sent, which covers every proxy; a failing write may have sent part of its data.
- NetworkScanSubnet: splitting and parsing the text of a CIDR block.
