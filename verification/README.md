# mail: a verified model of the message core

This project models the in-memory core of `mail`, a small Go web mail client
that reads IMAP accounts and local maildirs, and proves properties of it in
Dafny. It covers five pieces:

- **The MIME tree builder** (`multipart.dfy`). `MessageToNode` turns a header
  and a body into a `MessageNode` tree, splitting multipart bodies as in
  section 5.1 of RFC 2046. It always returns a node. A child's failure is
  collected into a `ChildError`, which renders as an indented text tree.
- **The cached reader** (`marshal.dfy`). `MarshalReader` reads its source
  once and from then on serves a fresh reader over those bytes.
  `backupReader` gives two independent readers over the same bytes.
- **Mailbox synchronisation** (`mailbox.dfy`). `Mailbox.Update` merges UID
  FETCH responses into the mail map and moves the sync cursor. `Email.Body`
  is a fetch-once cache that fetches `BODY[TEXT]` or `BODY.PEEK[TEXT]`
  (section 6.4.5 of RFC 3501). `Email.ParseBody` decides whether to keep the
  parsed tree.
- **Maildir helpers** (`maildir.dfy`). These cover the flag letters and bits,
  the `new`/`cur`/`tmp` check with its subfolder list, and the cached split of
  a `multipart/alternative` message into its parts.
- **Sessions and connections** (`session.dfy`). This is the session registry
  and the state machine of a server's connection handle.

Shared pieces:

- `wrappers.dfy` holds `Option` and `Result`.
- `text.dfy` holds line splitting and joining, as `strings.Split` and
  `strings.Join` do it on `"\n"`, and decimal rendering.
- `mime.dfy` holds headers, media types and the result of splitting a
  multipart body. Its `NextPart` loop is the one both `multipart.go` and
  `maildir/main.go` run.

Library and network calls are parameters of the operations that use them:

- `mime.ParseMediaType` is a `MediaParser`.
- `multipart.NewReader` with `NextPart` is a `Splitter`. A `Splitter` returns
  the parts read before the end, plus the error that stopped it, if any. Every
  part it returns is shorter than the body it was cut from. Each `NextPart`
  call reads the part before it through, so a part collected in a list is
  only a header by the time anyone reads the list: `Mime.Collected` holds
  drained parts.
- `mail.ReadMessage` is a `MessageReader`.
- `imap.Dial`, `StartTLS`, `Login` and `Logout` are `Dialer`, `TlsStarter`,
  `LoginAttempt` and `Logout`.
- A UID FETCH is the sequence of response batches it delivers. A body fetch is
  a `Retriever`.
- `ioutil.ReadDir` is a listing of `(name, isDir)` entries. `path.Join` and
  `path.Base` are `PathJoin` and `PathBase`.
- An `io.Reader` is a `ByteReader`: fixed bytes, a position, and whether
  reading ends in an error rather than at EOF.

Where the code does something other than its comments and names suggest, the
model follows the code:

- The sync cursor becomes the UID of the last message merged, not the largest
  one. `Mailbox.CursorCanMoveBack` shows the cursor going down.
- The requested range `cursor:*` includes the cursor, so the message at the
  cursor is fetched and returned again on every sync.
- `Close` does not clear a live handle.
- A failure to select the mailbox is ignored.

## Model

| member | source | states |
|---|---|---|
| Text.Split | app/models/multipart.go:44 | `strings.Split` on `"\n"` always gives at least one line |
| Text.SplitLinesHaveNoNewline | app/models/multipart.go:44 | no line that splitting gives contains a newline |
| Text.SplitSingleLine | app/models/multipart.go:44 | a text without a newline splits into itself alone |
| Text.SplitAroundNewline | app/models/multipart.go:44 | splitting `a + "\n" + b` gives the lines of `a`, then the lines of `b` |
| Text.JoinSplit | app/models/multipart.go:44-48 | joining the lines of a text gives the text back |
| Text.SplitJoin | app/models/multipart.go:44-48 | splitting joined lines that hold no newline gives the lines back |
| Text.SplitJoinBlocks | app/models/multipart.go:51 | the lines of joined blocks are the blocks' lines, block after block |
| Text.DecimalString | app/models/multipart.go:39 | `%d` of a natural is a non-empty run of digits with no leading zero |
| Text.DecimalRoundTrip | app/models/mailbox.go:42 | reading back the decimal rendering gives the number |
| Mime.NextPartAt | app/models/multipart.go:116 | `NextPart` yields each part in order, then EOF, or the split's error in place of EOF |
| Mime.Collected | app/models/multipart.go:112-123 | the loop's list fails exactly when the split fails; otherwise it is the placeholders, one nil, then every part in order, each with its header and no unread bytes |
| Mime.CollectParts | app/models/multipart.go:112-123 | the `for err = nil; err != io.EOF; part, err = NextPart()` loop computes `Collected` |
| Multipart.IsMultipartType | app/models/multipart.go:23-27 | true exactly when the type parses and its media type starts with "multipart"; false on a parse error |
| Multipart.HeaderLine | app/models/multipart.go:39 | the header line holds no newline |
| Multipart.Prefixed | app/models/multipart.go:45-47 | every line gains the `"  \|  "` prefix; order and count are kept |
| Multipart.ErrorText | app/models/multipart.go:38-52 | a `ChildError` text starts with "Errors [n] encountered while converting children:\n"; with no entries that is all of it |
| Multipart.IndentText | app/models/multipart.go:44-48 | the in-place prefixing loop over one child's lines computes `Indent` |
| Multipart.ChildErrorText | app/models/multipart.go:38-52 | the loop over the entries computes `ErrorText` of the `ChildError` |
| Multipart.IndentLines | app/models/multipart.go:44-48 | indenting a text prefixes each of its lines and adds no line |
| Multipart.ChildErrorLines | app/models/multipart.go:38-52 | the lines are the header, then every line of every entry prefixed once more; a nested `ChildError` gains one prefix per level |
| Multipart.EmptyChildErrorLines | app/models/multipart.go:38-52 | with no entries the text is the single header line |
| Multipart.Failures | app/models/multipart.go:136-140 | one entry per failing child, in child order, each naming its child |
| Multipart.FailuresSound | app/models/multipart.go:136-140 | every entry is a child that failed, with that child's error |
| Multipart.FailuresOrdered | app/models/multipart.go:130-140 | entries keep child order, and no child is entered twice |
| Multipart.FailuresComplete | app/models/multipart.go:136-140 | every failing child has an entry |
| Multipart.ChildErrorOf | app/models/multipart.go:126-148 | no error exactly when every child converted cleanly; otherwise a `ChildError` |
| Multipart.MessageToNode | app/models/multipart.go:92-151 | always returns a node with the message's header and its Content-Type, and the node is well shaped: a leaf keeps a body, an inner node has children |
| Multipart.ConvertParts | app/models/multipart.go:130-141 | each part is converted in place, by header and body |
| Multipart.NotMultipartIsLeaf | app/models/multipart.go:92-151 | a type that is not multipart gives the original body, no children and no error |
| Multipart.MissingBoundaryKeepsBody | app/models/multipart.go:100-104 | a multipart type with an empty `Boundry` header gives the original body, no children and an error |
| Multipart.AbortedSplitKeepsBackup | app/models/multipart.go:107-121 | a split that fails gives the backup body, no children and an "Aborted" error |
| Multipart.CleanSplitChildren | app/models/multipart.go:125-144 | a clean split gives one child per part in split order, and no body |
| Multipart.CleanSplitChildErrors | app/models/multipart.go:126-148 | after a clean split the error is present exactly when some child failed, and it lists exactly the failing children |
| Multipart.MessageToNodeAsWritten | app/models/multipart.go:92-151 | the code as written: the collected list starts with the nil part, and converting it panics |
| Multipart.ConvertAsWritten | app/models/multipart.go:130-141 | the as-written child loop panics on reaching a nil part |
| Multipart.AsWrittenPanicsOnCleanSplit | app/models/multipart.go:116-135 | every multipart message with a boundary whose split succeeds panics as written |
| Multipart.AsWrittenAgreesOtherwise | app/models/multipart.go:92-121 | when there is no clean split to walk, the as-written conversion equals `MessageToNode` |
| Marshal.ByteReader.constructor | app/models/marshal.go:31 | `bytes.NewReader` starts at offset 0 over the given bytes |
| Marshal.ByteReader.Read | app/models/marshal.go:51-53 | a read returns the next bytes, advances past them, and reports EOF or the error only at the end |
| Marshal.ReadAll | app/models/marshal.go:29 | `ioutil.ReadAll` returns everything left and leaves the reader at its end; an error only when the reader fails |
| Marshal.MarshalReader.Wrap | app/models/marshal.go:17-22 | a reader wrapped with no data read yet |
| Marshal.MarshalReader.OverBytes | app/models/marshal.go:59-63 | the reader is at the start of `data`, and `MarshalAsBytes` is set |
| Marshal.MarshalReader.Data | app/models/marshal.go:26-35 | the first call reads the source into `data` and continues from a fresh reader at 0; later calls return the same bytes and leave the reader alone |
| Marshal.MarshalReader.Read | app/models/marshal.go:51-53 | delegates to the current reader: min(n, remaining) bytes while any remain, then EOF or the read error |
| Marshal.NewMarshalReader | app/models/marshal.go:56-68 | `data` is everything the input held, the reader is at its start, `MarshalAsBytes` is true |
| Marshal.BackupReader | app/models/marshal.go:76-85 | two distinct new readers, each at its start, both with `data` equal to the input's bytes |
| Marshal.ReadToEnd | app/models/marshal.go:51-62 | reading a new `MarshalReader` to the end yields exactly its `data` |
| Marshal.BackupReadersIndependent | app/models/marshal.go:81-82 | reading one backup reader through leaves the other whole: both yield the input's bytes |
| Mailbox.ParseSeqSet | app/models/mailbox.go:42-43 | only a `<digits>:*` text reads as a range |
| Mailbox.SeqSetRequestsCursor | app/models/mailbox.go:39-45 | the requested set is `cursor:*`, and it contains the cursor itself |
| Mailbox.RequestType | app/models/mailbox.go:137-142 | `BODY[TEXT]` exactly when the message is to be marked read, else `BODY.PEEK[TEXT]` |
| Mailbox.Load | app/models/mailbox.go:130-151 | a cache hit returns the cache whatever `setRead` is; on a miss, a fetch error is returned and nothing is cached, and a non-empty response returns and caches the first response's `BODY[TEXT]`; a failure leaves the cache as it was |
| Mailbox.LoadAsWritten | app/models/mailbox.go:144-150 | the code as written: `cmd.Data[0]` on an empty response panics |
| Mailbox.LoadAsWrittenPanicsOnEmptyResponse | app/models/mailbox.go:148 | an uncached body whose fetch succeeds with no data panics as written |
| Mailbox.LoadAsWrittenAgreesOtherwise | app/models/mailbox.go:130-151 | on every other input the as-written cache equals `Load` |
| Mailbox.PeekThenReadHitsCache | app/models/mailbox.go:132-134 | after a peek fills the cache, a marking call returns the same bytes without fetching |
| Mailbox.ParseBodyResult | app/models/mailbox.go:157-179 | no body is an error without parsing; a clean parse returns the tree and keeps the email's node; a `ChildError` returns the tree and stores it on the email; any other error returns no tree and keeps the node |
| Mailbox.Email.constructor | app/models/mailbox.go:77-82 | a new email has its UID, its header node and no body |
| Mailbox.Email.Body | app/models/mailbox.go:130-151 | returns and caches as `Load` says, and leaves the node alone |
| Mailbox.Email.ParseBody | app/models/mailbox.go:157-179 | returns, and keeps, what `ParseBodyResult` says; the body cache is unchanged |
| Mailbox.AcceptedIn | app/models/mailbox.go:61-92 | the kept items of a run, in arrival order, never more than the run |
| Mailbox.AcceptedInConcat | app/models/mailbox.go:51-97 | keeping items from two runs in a row is keeping from each, in order |
| Mailbox.SkippedItemIsInvisible | app/models/mailbox.go:61-93 | an item with no UID or an unreadable header changes nothing that is kept |
| Mailbox.IndexCovers | app/models/mailbox.go:86 | the map gains exactly the returned UIDs, each pointing to the last email returned with it |
| Mailbox.CursorCanMoveBack | app/models/mailbox.go:70 | the cursor is the last UID merged, so a later, smaller UID moves it back |
| Mailbox.CursorIsMaxWhenAscending | app/models/mailbox.go:70 | when UIDs arrive in ascending order from the cursor on, the cursor ends at the largest |
| Mailbox.Mailbox.constructor | app/models/mailbox.go:22-29 | the cursor is 1, the map is empty, the name is as given |
| Mailbox.Mailbox.Update | app/models/mailbox.go:32-100 | the first failing step returns its own error (connect, then the sequence set, then the fetch) and changes nothing; otherwise one new email per kept item, in arrival order, the cursor at the last kept UID, and the map overwritten with the new emails |
| Mailbox.Mailbox.MergeBatch | app/models/mailbox.go:61-93 | one batch appends the emails of its kept items and keeps the cursor and map in step with them |
| Mailbox.Mailbox.Admit | app/models/mailbox.go:70-86 | a kept item moves the cursor to its UID, and its new email is appended and stored under that UID |
| Mailbox.MergeKeepsOtherEntries | app/models/mailbox.go:86 | after `Update` the keys are the old ones plus the returned UIDs, and entries of UIDs not returned are unchanged |
| Maildir.ReadFlag | maildir/main.go:60-70 | a non-zero flag exactly for the letters P, R, S, T, D and F; 0 for any other character |
| Maildir.FlagLetter | maildir/main.go:60-70 | a letter exactly for the six flags |
| Maildir.FlagsAreDistinctBits | maildir/main.go:34-42 | Passed=2, Replied=4, Seen=8, Trashed=16, Draft=32, Flagged=64: single bits, no two the same |
| Maildir.FlagLetterRoundTrip | maildir/main.go:60-70 | a flag letter read and written back is the same letter, and a flag written and read back is the same flag |
| Maildir.OtherDirs | maildir/main.go:81-101 | at most one name per listing entry |
| Maildir.OtherDirsExact | maildir/main.go:81-101 | a name is collected exactly when it is a listed directory other than new, cur and tmp |
| Maildir.FilesIgnored | maildir/main.go:82 | a file in the listing changes neither the subfolders nor whether it is a maildir |
| Maildir.FolderList | maildir/main.go:80-98 | five empty strings, then each other subdirectory joined onto the path, in listing order |
| Maildir.DirectoryFor | maildir/main.go:75-112 | a listing error is returned unchanged; success exactly when new, cur and tmp are listed directories; otherwise the "does not contain" error |
| Maildir.NewDirectory | maildir/main.go:75-112 | the loop over the listing computes `DirectoryFor` |
| Maildir.DirectoryAccessors | maildir/main.go:116-134 | a maildir is named by its path's base, and `Folders` returns its folder list as it is |
| Maildir.AttachmentsOf | maildir/main.go:174-211 | a cached list is returned without parsing; errors for a missing Content-Type, a parse error, a media type other than "multipart/alternative" or no `boundry`; a split error is returned and caches nothing; a well-formed message whose split succeeds returns a list and caches it |
| Maildir.AttachmentsLayout | maildir/main.go:190-204 | a successful list is five placeholders, the initial nil part, then every part in order, each drained to its header |
| Maildir.Message.constructor | maildir/main.go:162-166 | a message has its path, header and body, with no parts cached |
| Maildir.Message.Attachments | maildir/main.go:174-211 | returns, and caches, what `AttachmentsOf` says |
| Session.Handshake | app/models/session.go:58-89 | a present handle is returned without dialling; a dial error is returned and leaves no handle; a dialled client becomes the handle; the STARTTLS error if offered and failing, else the login error if needed and failing, else the dialled client is returned; a failure logs out |
| Session.FailedLoginHandleIsReused | app/models/session.go:58-89 | after a failed TLS upgrade or login, the next `Connect` returns that client with no error |
| Session.ConnectIsIdempotent | app/models/session.go:60-62 | once connected, every later `Connect` returns the same client and dials nothing |
| Session.Server.constructor | app/models/session.go:49-54 | a server starts with no handle |
| Session.Server.Close | app/models/session.go:91-98 | with no handle, nil and no change; with one, the `Logout` result, and the handle is kept |
| Session.Server.Connect | app/models/session.go:58-89 | returns, keeps and logs out what `Handshake` says |
| Session.Session.constructor | app/models/session.go:25 | a new session holds no servers |
| Session.Registry.constructor | app/models/session.go:15 | the datastore starts empty |
| Session.Registry.NewOrCreateSession | app/models/session.go:18-28 | an existing session is returned and nothing changes; otherwise a new empty one is stored and returned |
| Session.Registry.NewOrCreateTwice | app/models/session.go:18-28 | two calls with one id return the same session, and the second changes nothing |
| Session.Registry.DestroySession | app/models/session.go:31-40 | the id is removed and other ids are kept; every server of the session keeps its handle, and each that had one was logged out |

## Left out

- The network, the file system and the libraries are outside the model. The
  IMAP transport calls, `mime.ParseMediaType`, `multipart.NewReader`,
  `mail.ReadMessage`, `imap.NewSeqSet`, `ioutil.ReadDir`, `os.Open` and
  `path.Join`/`path.Base` are taken as parameters.
- Logging through `fmt.Printf` is not modelled.
- `DataToNode` (app/models/multipart.go:84-89) is only `mail.ReadMessage`
  followed by `MessageToNode`, so it is not modelled separately.
- The `backupReader` of app/models/multipart.go:57-65 is not modelled. It
  tees into a nil buffer and clashes with the `marshal.go` one, which is
  modelled instead.
- `MarshalJSON` (app/models/marshal.go:38-48) is not modelled. It is
  `json.Marshal`, an encoding library.
- `Email.RetrieveRaw` (app/models/mailbox.go:115-124) is folded into the
  `Retriever` parameter of `Email.Body`: it connects, builds the UID set and
  fetches.
- The back-references from `Mailbox` and `Email` to their `Server` and
  `Mailbox` are not modelled. `Update` and `Body` take the connection's
  outcome as a parameter instead.
- `Select` in `Update` is not modelled, because its result is ignored.
- `Mailbox.Mailbox.Update`: the batches are given up front. The blocking
  `Recv` loop and `cmd.InProgress` are not modelled.
- `Multipart.ChildErrorText`: the Go `ChildError` is a map keyed by child
  node, and is iterated in an unspecified order. The model keeps its entries
  as a sequence in child order, which is one of the orders Go may produce.
  `Multipart.ChildErrorLines` holds for any order of entries.
- `Mime.Part`: a part is a value, its header and the bytes it held. The
  stream shared by the parts of one body is not modelled. `Mime.Collected`,
  and so `Maildir.AttachmentsOf`, hand out parts already drained, as Go does.
  `Multipart.MessageToNode` converts each part from its full bytes, as if it
  were converted before the next `NextPart` call.
- `Mailbox.Contains`: a range `n:*` holds the UIDs from `n` on. By section 9
  of RFC 3501 it also holds the largest UID in use when that is below `n`;
  that case is not modelled.
- `Maildir.Message.Attachments`: the body is a fixed byte sequence. In Go the
  body is an `io.Reader` that a failed split has partly consumed, so a retry
  after a split error reads what is left. The model does not capture that.
- `LoadMessage` (maildir/main.go:150-169) opens and parses a file. Only the
  message it builds is modelled, as `Maildir.Message.constructor`.
  `Directory.Messages` (maildir/main.go:121-129) is an unimplemented stub.
- `Mime.Header` gives every header key at least one value. A Go header that
  maps a key to an empty slice would make `ct[0]` in `Attatchments` panic;
  that case is not modelled.
- Header keys are taken as already canonical, so `Header.Get` is a plain
  lookup.
- app/models/server.go is not part of this model. It repeats `Connect` and
  `Close` with an idle timer, which is background concurrency.
- session.go returns an undeclared `client` at line 88. The model reads it as
  the stored handle, which is the dialled client.
- The STARTTLS result and the state after the upgrade are fields of the
  dialled `Client`. The TLS configuration is not modelled.
- `Session.Registry.DestroySession` states only that each server with a
  handle was logged out at least once. A server stored under two names is
  closed twice, and the model does not count how many times.

## Findings

| source | as written | input that shows it | evidently intended | confidence | as-written member | corrected member |
|---|---|---|---|---|---|---|
| app/models/multipart.go:116-135 | The collecting loop runs its body once before the first `NextPart`, so `parts[0]` is the nil `sub_part`. The child loop then reads `part.Header` from it, which panics on the nil dereference. | Any message whose Content-Type is multipart, with a non-empty `Boundry` header and a body that splits without error. | One child per part that `NextPart` returned, each converted from its full bytes. As written the collected parts are drained by the following `NextPart` call before the child loop could read them, so the intent needs each part converted before the next `NextPart`. | not executed | Multipart.MessageToNodeAsWritten, Multipart.AsWrittenPanicsOnCleanSplit | Multipart.MessageToNode |
| app/models/mailbox.go:148 | `cmd.Data[0]` is indexed without checking that the fetch returned any data. | An uncached body whose UID FETCH completes with no FETCH response, for example after the message was expunged. | Return an error and leave the cache empty. | not executed | Mailbox.LoadAsWritten, Mailbox.LoadAsWrittenPanicsOnEmptyResponse | Mailbox.Load |
