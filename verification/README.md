# Mycorrhizal: verified models of the protocol and data-rewriting cores

Dafny 4.11 models of the parts of the backend whose correctness is hard to see from any one function, with
proofs of what they promise. `dafny verify dfyconfig.toml` checks everything.

| file | what it models |
|---|---|
| `ContactShare.dfy` | the contact-share confirmation protocol as a state machine: one event per atomic action of any number of goroutines running Accept, Confirm and Decline, with the map of reference-counted mutexes, import sessions and the share rows, next to the ordinary import endpoint |
| `ShareServer.dfy` | the same handlers as in-place actions on a server object that stays valid, a method that executes any interleaving of them, and the confirm handler from end to end |
| `AtRest.dfy` | envelope encryption: one wrapped DEK row, the in-memory engine, Initialize, RotateMasterKey, Encrypt, Decrypt and the two read-only openers |
| `Backfill.dfy` | the transactional backfill of encrypted columns, with its drop-and-recreate of the append-only trigger |
| `ExifStrip.dfy` | the JPEG and PNG walkers that drop Exif |
| `VCardComponents.dfy` | escaping and splitting of structured vCard values |
| `VCardMapper.dfy` | typed vCard fields and their labels, exported and imported |
| `GeoCoordinates.dfy` | moving coordinates between ADR parameters, GEO properties and imported addresses |
| `ChangeFeed.dfy` | the `?since=` feed of activities and a replica following it |
| `CalDavWindow.dfy` | the calendar window filter with its capped yearly scan |
| `Temporal.dfy` | partial dates, periods and their references to card entries |
| `ExportLoss.dfy` | the bounded loss-report header and its binary search |
| `Fingerprints.dfy` | Android signing-certificate fingerprints and the lists made of them |
| `Prelude.dfy` | result types and the Go string functions the others use |

How the models are built:

- Shared or updated state is a class (`Server`, `Engine`, `Store`, `Exporter`, `Importer`, `Card`, `Record`) whose
  methods change its fields in place and are proved equal to a step of a specification on values; loops are loops.
  The theorems are about the specification, so they hold of the methods.
- Beside its theorems each file says what its operations do on fields, bytes and characters, without the functions it
  specifies them by (`DeclineAlone`, `StoredForm`, `SuccessFillsColumn`, `OneSegmentJpeg`, `LegacyPhone`, `PageContents`).
- AES-GCM and base64 are functions given to the model, with the laws that opening with the sealing key returns what
  was sealed, that opening with another key fails and that decoding undoes encoding (`AtRest.Lawful`); a suite with
  these laws is shown to exist. Database failures are inputs (`ok`, `Faults`, `fault`).
- A Go string that holds text is the sequence of its code points. White space and case mapping are the Unicode ones: the
  entries of the case tables that lead into ASCII are spelled out, and nothing is assumed of the others.

What came out false, or true only under a condition, and is stated exactly:

- Confirms import a share at most once plus once for each status UPDATE that failed after one of them, and for every
  number of such failures that many imports do happen (`ImportsUpToTheBound`). The bound is one on confirms of the share
  only: the ordinary import endpoint takes the sessions of a share without looking at it, so the payload can be imported
  any number of times with no UPDATE failing (`DirectImportsHaveNoBound`). Through both endpoints together it is imported
  exactly once for each session used up (`ImportsAreSessionsUsed`).
- A share ends up both confirmed and declined exactly in the runs in which some step saves a decline after a confirm's
  import, or confirms after a decline (`BothIff`). Without a failed UPDATE that takes a decline that sits between its read
  and its save while a confirm of the share is past its status read (`WithoutOverlapNeverBoth`); and wherever a decline
  waits to save and a confirm can go through, it can happen (`StaleSaveOverwrites`).
- A value written while encryption was off reads back once it is on exactly when it does not itself begin with the
  ciphertext prefix (`ReadsBackExactlyWhen`, `PrefixedPlaintextIsRefused`).
- An empty wrapped key passes VerifyBackupDecryptable and is refused by NewOpener and Initialize
  (`ChecksAgreeUnlessRowIsEmpty`).
- SQLite's LIKE ignores ASCII case and strings.HasPrefix does not, so the backfill leaves in plaintext exactly the strings
  that spelled the prefix in another case before it ran (`LeftInPlaintext`).
- What is written between the backfill's SELECT and its transaction is lost exactly if the SELECT saw a plain string in
  that cell and the cell has come to read as something else (`LostWriteIff`, `WriteCanBeLost`).
- A label that has come back once stays as it is on every further trip exactly when it has no outer white space, is no
  Apple pseudo-label and is neither "voice" nor "mobile" (`CanonicalSettles`).
- A standalone GEO is claimed by one address and consumed, or by none and kept, under exact conditions. By position it
  fails exactly if the address there has a coordinate of its own in an ADR parameter (`ConservedByPosition`,
  `SupersededIsLost`). By PROP-ID it holds exactly for a GEO that has none; for one that a later GEO overwrites, if no ADR
  carries its PROP-ID; and for any other if exactly one of the ADR that carries its PROP-ID and the ADR that gets it as
  its synthetic ID has no coordinate of its own, or if no ADR carries it and none without a coordinate of its own gets it
  (`ConservedById`, `ClashDuplicates`, `ShadowedIsLost`). What stays on the card keeps its order exactly when no unclaimed
  coordinate precedes a GEO that is no coordinate (`KeptInOrderIff`, `KeptCanReorder`).
- A drain makes a replica a mirror exactly if the replica held no row that is not the user's and every row of the user,
  at the request that followed its last change, lay after the cursor in use or was in the replica already
  (`DrainConvergesIff`); a row stamped before the cursor and committed after it is missed (`LateCommitIsMissed`).
- The yearly scan knows no first year. For an event at midnight its answer agrees with the recurrences from DTSTART on in
  exactly the windows that do not end before DTSTART or in which no year has that day (`AllDayScanIsRightIff`, and
  `ServedScanIsRightIff` for the events the server serves): every yearly event is found in some window before it begins
  (`FoundBeforeItBegins`, `JuneEventFoundTooEarly`). Only events at midnight are always found where they recur
  (`InReachScanIsRightIffAllDay`). A recurrence of 29 February in a common year is 1 March, which is how the code reads
  the rule; section 3.3.10 of RFC 5545 ignores dates that do not exist (`LeapDayIsFoundInMarch`).
- For endpoints whose components are in range, Reversed means that no completion is in order except exactly when two days
  cross around an unknown month (`MeaningHoldsIff`).
- The loss-report header stays within its bound exactly when the whole report, or the empty truncated one, does
  (`BoundIsKeptIff`).

Where comment and code differ, the code is modelled: splitComponents undoes a backslash before any byte, not only
before ";".

## Model

| member | source | states |
|---|---|---|
| ContactShare.StepKeepsLockInv | backend/controllers/contact_share_controller.go:239-268 | every atomic action of every goroutine keeps the lock invariant: the map mutex and each share mutex are held by exactly the goroutine in its section, refs counts the goroutines between refs++ and refs--, every goroutine points at the one lock the map holds for its share, and an entry exists only while somebody refers to it |
| ContactShare.OneConfirmAtATime | backend/controllers/contact_share_controller.go:249-268 | in every reachable state two goroutines past l.mu.Lock for one share are the same goroutine |
| ContactShare.EntryIffReferenced | backend/controllers/contact_share_controller.go:249-268 | in every reachable state with the map mutex free, the map has an entry for a share iff some goroutine is between refs++ and refs-- for it, all of them use that one lock, and refs is their number: deleting and recreating entries never splits a share over two mutexes |
| ContactShare.StepKeepsImportInv | backend/controllers/contact_share_controller.go:343-430 | every action, including the unlocked read and the later stale save of Decline, keeps the invariant that ties imports, sessions, rows and program counters together |
| ContactShare.ImportedAtMostOnce | backend/controllers/contact_share_controller.go:343-400 | in every interleaving, the ordinary endpoint's imports included, the confirms of a share that reach its UPDATE, and so its imports through the share, are at most one more than the UPDATEs that failed |
| ContactShare.ImportsAreSessionsUsed | backend/services/import_session.go:627-900 | in every interleaving of both endpoints the payload has been imported exactly as often as sessions of the share have been used up; and if the ordinary endpoint used none, every confirm that reached the UPDATE had imported |
| ContactShare.DirectImportsHaveNoBound | backend/controllers/import_controller.go:396-419 | for every n a reachable state with n + 1 imports of one share, accepted in the end, and no failed UPDATE: the ordinary endpoint never looks at the share |
| ContactShare.ReplayAccepts | backend/services/import_session.go:178-194 | a run in which the ordinary endpoint imports between a confirm's session check and its import: the confirm replays that result and marks the share accepted without importing |
| ContactShare.ImportsAreTheRecipients | backend/services/import_session.go:336-363 | every import of a share through a confirm was made by its recipient with a session minted for that very share |
| ContactShare.ResponsesAreFinal | backend/controllers/contact_share_controller.go:219-235 | along every run a share that left pending never returns to it, and declined stays declined |
| ContactShare.BothIff | backend/controllers/contact_share_controller.go:343-430 | a run leaves a share both confirmed and declined iff some step of it saves a decline of a share already confirmed, or imports or replays for a share already declined |
| ContactShare.StepMakesBothIff | backend/controllers/contact_share_controller.go:381-424 | among all steps of all goroutines exactly those two complete the pair |
| ContactShare.WithoutOverlapNeverBoth | backend/controllers/contact_share_controller.go:343-430 | a run with no failed UPDATE, in which no decline of the share sits between its read and its save while a confirm of it is past its status read, never leaves it both confirmed and declined |
| ContactShare.StatusIsRightWithoutOverlap | backend/controllers/contact_share_controller.go:384-430 | in such a run, outside the gap between an import and its UPDATE, the status is accepted iff the share was confirmed and pending iff it was neither confirmed nor declined |
| ContactShare.FailedStepsChangeNothing | backend/controllers/contact_share_controller.go:381-397 | a step that fails, the import included, changes no row, no session and nothing of the record but the count of failed UPDATEs |
| ContactShare.RefusedCallsChangeNothing | backend/controllers/contact_share_controller.go:219-235 | a call on a share that is missing, another user's or already answered has no effect: neither its read nor, however others run in between, any step it takes from then on changes a row, a session or a record |
| ContactShare.OnlyResponsesChangeRows | backend/controllers/contact_share_controller.go:343-430 | a row changes only from pending to accepted by the UPDATE of a confirm of that share, or to declined by the save of a decline of it |
| ContactShare.NeverStuck | backend/controllers/contact_share_controller.go:249-268 | while any goroutine is unfinished, some goroutine can take its next step |
| ContactShare.RunsAreBounded | backend/controllers/contact_share_controller.go:249-430 | however they are scheduled, the calls already started take at most a fixed number of steps |
| ContactShare.AllCallsFinish | backend/controllers/contact_share_controller.go:249-430 | from every state of the invariant all started calls can be run to completion, which leaves the lock map empty |
| ContactShare.ConfirmAlone | backend/controllers/contact_share_controller.go:343-400 | a still-pending share can be retried: a confirm with a live session of that share and no rival imports the payload, marks it accepted (or counts the failed UPDATE), burns the session and leaves no lock behind |
| ContactShare.AcceptAlone | backend/controllers/contact_share_controller.go:277-320 | an accept on a pending share mints one session bound to share and user and changes nothing else |
| ContactShare.DeclineAlone | backend/controllers/contact_share_controller.go:406-430 | from every reachable state with the share pending for the user, starting a decline and taking its two steps without a fault leaves the row declined, one decline more on record, the goroutine done and nothing else changed |
| ContactShare.SecondStepsAreUnconditional | backend/controllers/contact_share_controller.go:310-424 | whatever has happened since the first read, an accept then mints and a decline then saves, with the whole new state spelled out |
| ContactShare.OtherEvents | backend/services/import_session.go:121-136 | creating a share, expiring a session and importing it directly, with the whole new state spelled out |
| ContactShare.ExpiredIsNeverImported | backend/services/import_session.go:196-217 | no run brings an expired session back or imports it, through either endpoint |
| ContactShare.ImportsUpToTheBound | backend/controllers/contact_share_controller.go:387-397 | for every n a reachable state with n failed UPDATEs and n + 1 imports of one share |
| ContactShare.FailedMarkAllowsSecondImport | backend/controllers/contact_share_controller.go:387-397 | a run in which the UPDATE fails after the import and the share is imported a second time |
| ContactShare.StaleSaveOverwrites | backend/controllers/contact_share_controller.go:406-430 | from every reachable state with a decline about to save, the lock free and a confirm of that share possible, some run leaves the share imported and declined |
| ContactShare.DeclineCanOverwriteAccepted | backend/controllers/contact_share_controller.go:406-430 | and such a state is reachable |
| ShareServer.Server.StepOf | backend/controllers/contact_share_controller.go:219-430 | the next atomic action of any goroutine, done in place on the lock map, the lock objects, the sessions and the rows, is that goroutine's step of the state machine and keeps the server valid |
| ShareServer.Server.RunSchedule | backend/controllers/contact_share_controller.go:219-430 | executing any interleaving of any number of calls and direct imports in place ends in the state the run leads to, valid, with at most one import through each share plus one for each failed UPDATE |
| ShareServer.Server.LockShareConfirm | backend/controllers/contact_share_controller.go:249-260 | taking the lock of a share nobody confirms registers one entry with one reference, held by the caller |
| ShareServer.Server.Unlock | backend/controllers/contact_share_controller.go:260-268 | the closure gives everything back and removes the entry |
| ShareServer.Server.ConfirmContactShare | backend/controllers/contact_share_controller.go:343-400 | the whole handler, for every outcome of its database and import actions: the payload is imported iff nothing up to the import fails and the share is pending for the user with a live session of its own; if not, nothing changes; the lock is released in every case |
| ShareServer.Server.DeclineContactShare | backend/controllers/contact_share_controller.go:406-430 | the whole handler, for every outcome of its read and its save: it declines iff both succeed and the share is pending for the user, and otherwise changes no row, session or record |
| ShareServer.Server.AcceptContactShare | backend/controllers/contact_share_controller.go:277-320 | the whole handler likewise: it mints one session bound to share and user, or changes nothing |
| AtRest.Engine.Initialize | backend/atrest/atrest.go:235-323 | booting in place is InitializeSpec, on every key, row and fault |
| AtRest.Engine.RotateMasterKey | backend/atrest/atrest.go:419-457 | rotation in place is RotateSpec, on every pair of keys, row and fault |
| AtRest.RotationSucceedsIff | backend/atrest/atrest.go:419-457 | after every run, with a usable new key and no fault, a rotation succeeds iff there is a key row and the old key is the master key; the row then opens under the new key to the same DEK; without a row the answer is ErrNoWrappedDEK, under another key ErrOpenFailed |
| AtRest.RotationFailures | backend/atrest/atrest.go:419-457 | on any state a failed rotation changes nothing; which error each fault, missing key, missing row and wrong key gives |
| AtRest.FirstBoot | backend/atrest/atrest.go:287-319 | with no row a boot creates one that holds the new DEK under the key and arms the engine with it, or changes nothing if that cannot be written |
| AtRest.LaterBoot | backend/atrest/atrest.go:287-305 | with a row a boot arms the engine with the row's DEK iff the key is the master key, and otherwise changes nothing |
| AtRest.BootWithoutKeyOrDatabase | backend/atrest/atrest.go:235-250 | without a key a boot disarms the engine and succeeds; with one and no database, or an unreadable one, it changes nothing and fails |
| AtRest.ChecksWithoutKeyOrRow | backend/atrest/atrest.go:391-561 | without a key or without a row the backup check passes, and the opener hands out plaintext and refuses ciphertext |
| AtRest.StoredForm | backend/atrest/atrest.go:463-477 | the stored text is "encv1:main:" and the encoded ciphertext; the empty text and what a disarmed engine is given stay as they are |
| AtRest.ReadForm | backend/atrest/atrest.go:500-517 | what any text with the prefix reads as: malformed without a second colon, under another key ID or undecodable, refused if it does not open, else its plaintext |
| AtRest.LikeForm | backend/atrest/backfill.go:114 | LIKE 'encv1:%' letter by letter |
| AtRest.RunKeepsInv | backend/atrest/atrest.go:235-477 | every sequence of boots, rotations, writes and backfills keeps: the row opens under the master key only, the engine holds the row's DEK, and every sealed text opens to what was written |
| AtRest.DekNeverChanges | backend/atrest/atrest.go:287-323 | once the row exists no sequence of boots, rotations, writes and backfills changes the DEK in it |
| AtRest.ReadsBackExactlyWhen | backend/atrest/atrest.go:463-517 | after every run, backfills that stop anywhere included, with the engine armed a value reads back as written iff it was written armed or does not start with the ciphertext prefix |
| AtRest.PrefixedPlaintextIsRefused | backend/atrest/atrest.go:484-511 | a value that fails it: "encv1:hello", written before the first armed boot, is refused as malformed after it |
| AtRest.DisarmedFailsClosed | backend/atrest/atrest.go:484-499 | with the engine disarmed a value sealed by its write or by a backfill, or starting with the prefix, is refused and any other is returned as written |
| AtRest.OnlyTheCurrentMasterKeyOpens | backend/atrest/atrest.go:391-457 | after every run Initialize, RotateMasterKey, VerifyBackupDecryptable and NewOpener each succeed under exactly the current master key |
| AtRest.OpenerAgreesWithEngine | backend/atrest/atrest.go:533-561 | an Opener made with the master key reads every stored text as the armed engine does |
| AtRest.ChecksAgreeUnlessRowIsEmpty | backend/atrest/atrest.go:391-412 | on any row Initialize and NewOpener agree, and VerifyBackupDecryptable agrees with them iff the wrapped key is not empty |
| AtRest.OpenFrame | backend/atrest/atrest.go:502-517 | a framed ciphertext opens to what was sealed, and fails to open under another key |
| Backfill.Store.BackfillColumn | backend/atrest/backfill.go:108-162 | the SELECT and the transaction in place, with nobody writing in between: all selected strings sealed and the trigger recreated, or, wherever it fails, rows and trigger as before |
| Backfill.Store.RewriteColumn | backend/atrest/backfill.go:125-161 | the transaction in place on whatever the table has become since the SELECT: the UPDATEs for the picked pairs in order and the trigger recreated, or everything rolled back |
| Backfill.RewriteFills | backend/atrest/backfill.go:112-156 | on the rows the SELECT saw, those UPDATEs seal exactly the plain strings |
| Backfill.LostWriteIff | backend/atrest/backfill.go:112-156 | whatever was inserted, deleted or written since the SELECT, the transaction changes what a cell of its column reads as iff the SELECT saw a plain string there and the cell now reads as something else; no other column and no other row changes |
| Backfill.WriteCanBeLost | backend/atrest/backfill.go:112-156 | such a write on a table of one row |
| Backfill.Store.Run | backend/atrest/backfill.go:82-103 | the column loop in place is BackfillAll, stopping at the first error |
| Backfill.SplitSpec | backend/atrest/backfill.go:189-196 | accepted iff the first dot is neither the first nor the last character; then the spec is the table, a dot and the column, neither part empty and no dot in the table |
| Backfill.BackfillReadsSame | backend/atrest/backfill.go:82-162 | succeeding or failing anywhere, a run changes no row id, no row count and no value as read |
| Backfill.TriggerSurvives | backend/atrest/backfill.go:131-160 | a trigger present before is present in every committed state |
| Backfill.SuccessFillsAll | backend/atrest/backfill.go:108-162 | after success every listed column has nothing left to select |
| Backfill.SuccessFillsColumn | backend/atrest/backfill.go:82-162 | after success a column listed as table, dot, column holds no string but empty ones and ones like ciphertext, and audit_events is protected |
| Backfill.OddSpecs | backend/atrest/backfill.go:82-124 | a malformed name ends the run with its error, a missing table is passed over, a missing column is an error, a disarmed engine does nothing |
| Backfill.FailedColumnIsRolledBack | backend/atrest/backfill.go:126-161 | a failed run leaves exactly what a successful run over the columns before the failing one leaves |
| Backfill.EveryStatementCounts | backend/atrest/backfill.go:126-161 | a failure of the first statement or of the commit fails the column and changes nothing, and without one it succeeds |
| Backfill.RerunChangesNothing | backend/atrest/backfill.go:105-107 | a run after a successful one changes nothing, whatever nonces it draws |
| Backfill.RerunAfterFailureCompletes | backend/atrest/backfill.go:82-162 | however a run failed, a later run without faults fills every column and everything still reads as before the first |
| Backfill.LeftInPlaintext | backend/atrest/backfill.go:112-156 | a successful run changes a cell of a listed column iff it held a non-empty string not like a ciphertext, and leaves unencrypted exactly the strings that spelled the prefix in another case before |
| Backfill.RunSettles | backend/atrest/backfill.go:82-162 | what becomes of every cell: ciphertext if its column is listed and it needs sealing, otherwise unchanged |
| Backfill.FillRowRefills | backend/atrest/backfill.go:142-156 | on one value the backfill does what the runs above say it does |
| Backfill.UpperCasePrefixIsNeverEncrypted | backend/atrest/backfill.go:114 | such a value is never selected and reads as itself |
| ExifStrip.StripJPEGExif | backend/attachments/exif_strip.go:45-107 | the loop with its early returns computes the answer of the grammar |
| ExifStrip.JpegAnswerMeaning | backend/attachments/exif_strip.go:45-107 | a file that is SOI, segments and SOS or EOI becomes SOI, its non-Exif segments byte for byte in order and the ending (all from SOS, just the marker at EOI); anything else is returned as it is; the output is never longer |
| ExifStrip.JpegIsUnique | backend/attachments/exif_strip.go:52-105 | the bytes of a JPEG determine its segments and ending |
| ExifStrip.NoExifLeft | backend/attachments/exif_strip.go:90-104 | walking the output again finds no Exif APP1 before its SOS or EOI |
| ExifStrip.JpegIdempotent | backend/attachments/exif_strip.go:45-107 | stripping twice is stripping once |
| ExifStrip.ParsedIsJpeg | backend/attachments/exif_strip.go:45-107 | the walk gets through exactly the files of the grammar, with exactly their pieces |
| ExifStrip.OneSegmentJpeg | backend/attachments/exif_strip.go:60-105 | byte by byte, lengths most significant byte first: of a JPEG of one segment and a scan, the segment goes iff its marker is E1 and its payload begins with "Exif" and two zero bytes |
| ExifStrip.MarkersAreCopied | backend/attachments/exif_strip.go:60-80 | TEM and the restart markers are copied without a length, and EOI ends the file |
| ExifStrip.StripPNGExif | backend/attachments/exif_strip.go:111-150 | the chunk loop, in bounds at every length, computes the answer of the grammar |
| ExifStrip.PngAnswerMeaning | backend/attachments/exif_strip.go:111-150 | a chunk sequence becomes the signature, its non-eXIf chunks byte for byte in order and whatever follows IEND; anything else is returned as it is; no eXIf is left; twice is once |
| ExifStrip.ParsedIsPng | backend/attachments/exif_strip.go:111-150 | the walk gets through exactly the chunk sequences of the grammar |
| ExifStrip.TwoChunkPng | backend/attachments/exif_strip.go:111-150 | byte by byte: of a PNG of one chunk and IEND, the chunk goes iff its type is eXIf; what follows IEND stays |
| ExifStrip.StripImageMetadata | backend/attachments/exif_strip.go:32-41 | only the two content types are touched |
| VCardComponents.TwoPassesAreOne | backend/carddav/vcard_mapper.go:519-523 | the two ReplaceAll passes escape one byte at a time |
| VCardComponents.ScanEscaped | backend/carddav/vcard_mapper.go:519-546 | the scanner undoes the escaping of what it reads, whatever follows |
| VCardComponents.SplitComponents | backend/carddav/vcard_mapper.go:529-546 | the scanner loop computes Scan |
| VCardComponents.EscapeAppends | backend/carddav/vcard_mapper.go:519-523 | only backslashes and semicolons are escaped, each by one backslash in front |
| VCardComponents.ScannerReads | backend/carddav/vcard_mapper.go:529-546 | a backslash takes any next character as it is and stands for itself at the end; a semicolon ends a component; anything else is itself |
| VCardComponents.SplitUndoesJoin | backend/carddav/vcard_mapper.go:519-546 | for every non-empty list of strings, splitting the join of the escaped strings gives the list back |
| VCardComponents.StructuredValueIsFaithful | backend/carddav/vcard_mapper.go:86-101 | different component lists never share a structured value |
| VCardMapper.Exporter.AddTypedField | backend/carddav/vcard_mapper.go:434-450 | adding a field in place, custom labels through a fresh group, is AddTyped on the card and the counter |
| VCardMapper.Exporter.ContactToVCard | backend/carddav/vcard_mapper.go:33-109 | exporting the four lists in place gives Exported, with the legacy scalars standing in for empty lists |
| VCardMapper.LabelFromGroup | backend/carddav/vcard_mapper.go:462-472 | the label of the first group equal but for case |
| VCardMapper.TypeFromField | backend/carddav/vcard_mapper.go:489-507 | the first meaningful token over all TYPE values |
| VCardMapper.Importer.ReadAddressList | backend/carddav/vcard_mapper.go:270-288 | the ADR loop gives the non-empty addresses in order |
| VCardMapper.Importer.VCardToContact | backend/carddav/vcard_mapper.go:236-307 | importing in place is Imported: a list is replaced iff the card has the property |
| VCardMapper.GroupNamesDiffer | backend/carddav/vcard_mapper.go:33-39 | generated group names of different numbers differ even ignoring case |
| VCardMapper.StandardComesBack | backend/carddav/vcard_mapper.go:391-421 | the TYPE values of a standard label, in any characters whose lower cases spell it, read back as its canonical form, with or without INTERNET |
| VCardMapper.CanonicalOfAscii | backend/carddav/vcard_mapper.go:391-421 | in ASCII that is the label in lower case, mobile as cell and voice as nothing |
| VCardMapper.AddAllCarries | backend/carddav/vcard_mapper.go:434-485 | after adding a list the fields carry exactly its entries, each with its own label, and no other property or earlier label is disturbed |
| VCardMapper.AddressComponents | backend/carddav/vcard_mapper.go:86-101 | a written ADR value has seven components: two empty, then street, city, region, postal code and country |
| VCardMapper.EmailsCarryInternet | backend/carddav/vcard_mapper.go:61-72 | every exported EMAIL carries INTERNET, whatever its label |
| VCardMapper.RoundTrip | backend/carddav/vcard_mapper.go:33-307 | exporting any contact and importing the card over any contact gives every non-empty email, phone, address and URL back in order with its value and the canonical form of its own label, addresses up to trimming the street; an empty list comes back as the entry made of its legacy scalar, if there is one; a list with nothing to export leaves the existing one alone |
| VCardMapper.LegacyEmail | backend/carddav/vcard_mapper.go:61-71 | an empty list and a scalar e-mail address: exactly one EMAIL of types INTERNET and HOME, back as one home entry |
| VCardMapper.LegacyPhone | backend/carddav/vcard_mapper.go:74-84 | an empty list and a scalar phone number: exactly one TEL of types CELL and VOICE, back as one cell entry |
| VCardMapper.LegacyAddress | backend/carddav/vcard_mapper.go:86-102 | an empty list and a scalar address that is not blank: exactly one ADR with it as the escaped street, back as one home address with the street trimmed |
| VCardMapper.NothingToExport | backend/carddav/vcard_mapper.go:61-102 | an empty list and an empty scalar: no property, and the import keeps what it finds |
| VCardMapper.ScalarIsIgnored | backend/carddav/vcard_mapper.go:61-102 | beside lists that are there the scalars do not show on the card |
| VCardMapper.FieldsWritten | backend/carddav/vcard_mapper.go:434-450 | the field written for a standard label and the two for a custom one, and nothing else |
| VCardMapper.CustomMeaning | backend/carddav/vcard_mapper.go:409-427 | a label is custom iff its trimmed lower case is not empty and none of the eight words |
| VCardMapper.FirstTokenDecides | backend/carddav/vcard_mapper.go:489-507 | the first TYPE token that is no marker decides, in any letter case |
| VCardMapper.LabelDecides | backend/carddav/vcard_mapper.go:454-485 | the first label in the field's group comes before the TYPE values unless it is blank |
| VCardMapper.AddressOfOthers | backend/carddav/vcard_mapper.go:273-290 | any seven components: the box is dropped, the extended address follows the street, the others come through |
| VCardMapper.AddressesOfOthers | backend/carddav/vcard_mapper.go:273-292 | an ADR is passed over iff all of its address is blank; the others come in order |
| VCardMapper.EmptyValues | backend/carddav/vcard_mapper.go:235-312 | a property with empty values empties its list and leaves the scalar |
| VCardMapper.ExtraIsRestored | backend/carddav/vcard_mapper.go:180-198 | each property kept from an import is appended under its own name, but for the nineteen that have a column |
| VCardMapper.CanonicalSettles | backend/carddav/vcard_mapper.go:424-507 | for every label: what came back once comes back again iff it has no outer white space, is no pseudo-label and is neither "voice" nor "mobile" |
| VCardMapper.FixedLabels | backend/carddav/vcard_mapper.go:424-507 | exactly which labels a round trip leaves alone |
| VCardMapper.PseudoVoiceFades | backend/carddav/vcard_mapper.go:476-485 | a pseudo-label that does change again |
| GeoCoordinates.Card.AdrGeoParamsToProperties | backend/carddav/vcard_geo.go:52-70 | in place: every non-empty GEO parameter goes, and each coordinate becomes a GEO property with its ADR's PROP-ID, in order |
| GeoCoordinates.Card.TakeGeoCoordinates | backend/carddav/vcard_geo.go:92-153 | in place: all parameters go, the three results are those of the specification, and exactly the unclaimed properties stay |
| GeoCoordinates.ApplyGeoCoordinates | backend/carddav/vcard_geo.go:160-177 | in place: own parameter first, then PROP-ID, then position |
| GeoCoordinates.NormalizeKeeps | backend/carddav/vcard_geo.go:184-194 | normalising returns its input iff that is empty or a trimmed valid geo: URI without an escaped comma |
| GeoCoordinates.AnySchemeCase | backend/carddav/vcard_geo.go:184-194 | the scheme counts in any letter case and is kept as spelled; without it there is no coordinate |
| GeoCoordinates.NormalizeAgain | backend/carddav/vcard_geo.go:184-194 | a normalised coordinate survives the encoder's comma escape on every input |
| GeoCoordinates.GetThenPutInPlace | backend/carddav/vcard_geo.go:52-177 | the three functions run one after the other on a card and its imported addresses: every address ends with its own coordinate, normalised, and no GEO is left, for any number of addresses whose coordinate-bearing PROP-IDs are unique on the card, if the encoder escapes commas or no coordinate holds an escaped comma of its own |
| GeoCoordinates.GetThenPut | backend/carddav/vcard_geo.go:52-177 | the same of their specifications |
| GeoCoordinates.RestoredIffPlain | backend/carddav/vcard_geo.go:52-177 | an address gets exactly its original coordinate back iff that was plain or absent |
| GeoCoordinates.AppliedFromSource | backend/carddav/vcard_geo.go:160-177 | which coordinate each address ends up with: its own, that of which GEO, or the one it came with |
| GeoCoordinates.ConservedByPosition | backend/carddav/vcard_geo.go:136-171 | without PROP-IDs on the GEOs each coordinate is claimed by exactly one address iff consumed, and by none iff kept, exactly unless the address at its position has a coordinate of its own |
| GeoCoordinates.SupersededIsLost | backend/carddav/vcard_geo.go:136-171 | a card on which a coordinate is taken off and given to nobody |
| GeoCoordinates.ConservedById | backend/carddav/vcard_geo.go:117-171 | with distinct PROP-IDs on the ADRs and any GEO parameters on them, each coordinate is claimed by exactly one address iff consumed, and by none iff kept, exactly when: it has no PROP-ID; or a later one has the same and no ADR carries it; or none has, and exactly one of the ADR that carries it and the one that gets it as its synthetic ID has no coordinate of its own; or none has, no ADR carries it and none without a coordinate of its own gets it as its synthetic ID |
| GeoCoordinates.ConservedWithoutParams | backend/carddav/vcard_geo.go:117-171 | with no GEO parameters and distinct PROP-IDs on both sides, iff no ADR gets the coordinate's PROP-ID as its synthetic ID |
| GeoCoordinates.ClashDuplicates | backend/vcard4/adapter.go:292-297 | a card on which a coordinate is both kept and applied |
| GeoCoordinates.ShadowedIsLost | backend/carddav/vcard_geo.go:117-134 | a coordinate followed by one with the same PROP-ID is given to nobody, and consumed iff an ADR carries that PROP-ID |
| GeoCoordinates.GeosAreKeptOrTaken | backend/carddav/vcard_geo.go:117-152 | what stays and what is taken make up what was there, unaltered |
| GeoCoordinates.KeptInOrderIff | backend/carddav/vcard_geo.go:117-152 | what stays keeps its order iff no unclaimed coordinate precedes a property that is no coordinate |
| GeoCoordinates.KeptCanReorder | backend/carddav/vcard_geo.go:117-152 | a card on which what stays changes its order |
| ChangeFeed.GetActivitiesSince | backend/controllers/activity_controller.go:187-224 | the handler's page misses no row as far as it reaches, has a next cursor iff more rows are to come, and delivers each row as it is in the table, deleted iff it has a deletion time |
| ChangeFeed.PageContents | backend/controllers/activity_controller.go:187-216 | a page field by field: the user's rows strictly after the cursor, by updated_at and then by id, deleted iff the table's row has a deletion time, and otherwise unchanged |
| ChangeFeed.PageKeepsInStep | backend/controllers/activity_controller.go:206-220 | a page brings the replica in step with the next cursor, or makes it a mirror when there is none |
| ChangeFeed.Converges | backend/controllers/helpers.go:665-703 | if each change lands after the cursor in use, the replica ends as a mirror of the last request's table |
| ChangeFeed.ReplicaConverges | backend/controllers/activity_controller.go:182-224 | a replica in step with any cursor that follows next_cursor until it is empty mirrors the last request's table, tombstones included, for changes whose updated_at is above all earlier ones |
| ChangeFeed.ReplicaHolds | backend/controllers/activity_controller.go:182-224 | after such a drain the replica holds row id iff it is the user's in the table, field by field, and deleted iff the table's row has a deletion time |
| ChangeFeed.WhereToStart | backend/controllers/helpers.go:622-629 | a mirror is in step with every cursor, and an empty replica exactly with those before all of the user's rows |
| ChangeFeed.DrainListsEachOnce | backend/controllers/activity_controller.go:197-220 | with no changes the pages list every due row exactly once in ascending order |
| ChangeFeed.PagesAreFull | backend/controllers/activity_controller.go:197-205 | every page but the last is full, which bounds the number of requests |
| ChangeFeed.PageSizeDoesNotMatter | backend/controllers/activity_controller.go:197-220 | two drains with different limits deliver the same rows |
| ChangeFeed.BehindTheCursorIsMissed | backend/controllers/helpers.go:665-671 | a row at or before the cursor is in no later page |
| ChangeFeed.ChangeArrivesIff | backend/controllers/helpers.go:665-671 | one change between requests reaches the replica iff it lands after the cursor (or was there already) |
| ChangeFeed.DrainConvergesIff | backend/controllers/activity_controller.go:182-224 | for any replica, cursor and changes in every round, the drain ends as a mirror of the last request's table iff the replica held no row that is not the user's and every row of the user, at the request after its last change, lay after the cursor in use or was in the replica already |
| ChangeFeed.LateCommitIsMissed | backend/controllers/helpers.go:665-671 | a row stamped before the cursor and committed after it never arrives |
| CalDavWindow.EventInWindow | backend/caldav/backend.go:416-432 | for every window the capped loop answers whether DTSTART, or for a yearly event some year's occurrence, lies in it |
| CalDavWindow.LongWindowHasOccurrence | backend/caldav/backend.go:424-430 | a window that holds a whole calendar year after its first holds an occurrence |
| CalDavWindow.OccurrenceDay | backend/caldav/backend.go:426 | in every year the occurrence is the same month and day, except that 29 February is 1 March in a common year |
| CalDavWindow.OccurrenceInOwnYear | backend/caldav/backend.go:426 | in DTSTART's own year the occurrence is DTSTART's day |
| CalDavWindow.AllDayScanIsRightIff | backend/caldav/backend.go:411-432 | for an event at midnight the answer is that it recurs in the window, counting from DTSTART on, in exactly the windows that do not end before DTSTART or in which no year has that day |
| CalDavWindow.ServedScanIsRightIff | backend/caldav/backend.go:219-230 | the same of every yearly event the server serves |
| CalDavWindow.FoundBeforeItBegins | backend/caldav/backend.go:424-430 | every yearly event is found in some window that ends before it begins |
| CalDavWindow.JuneEventFoundTooEarly | backend/caldav/backend.go:424-430 | an event that begins on 1 June 2026 is found on 1 June 2000 |
| CalDavWindow.InReachScanIsRightIffAllDay | backend/caldav/backend.go:411-432 | in all windows that do not end before DTSTART the answer is right iff DTSTART is at midnight |
| CalDavWindow.LeapDayIsFoundInMarch | backend/caldav/backend.go:426 | a 29 February event is found on 1 March of every common year |
| CalDavWindow.TimedRecurrenceCanBeMissed | backend/caldav/backend.go:411-432 | for every other event there is a window in which it recurs and is not found |
| CalDavWindow.OverlapMeaning | backend/caldav/backend.go:403-409 | the range test holds iff the event is under way at some instant of the window |
| CalDavWindow.FilterObjectsByWindow | backend/caldav/backend.go:355-397 | without a query or event window everything, otherwise exactly the objects with an event that must be kept |
| CalDavWindow.KeptIsASelection | backend/caldav/backend.go:374-396 | what is kept is an in-order selection containing exactly the objects that must be kept |
| CalDavWindow.NothingToTest | backend/caldav/backend.go:378-388 | an event without DTSTART, or with the zero one, keeps its object in every window, and any event in a window open on a side |
| CalDavWindow.OutsideIsDropped | backend/caldav/backend.go:389-396 | an event that begins after a closed window, or before it and is over by its start, is dropped unless it is yearly |
| CalDavWindow.InsideIsKept | backend/caldav/backend.go:389-409 | an event that begins in the window or is under way when it opens is kept |
| CalDavWindow.JuneInLaterSummer | backend/caldav/backend.go:416-432 | 1 June 2020 is found in the summer of 2026 with FREQ=YEARLY, and neither without a rule nor with FREQ=DAILY |
| CalDavWindow.YearlyRules | backend/caldav/backend.go:421 | a rule is yearly if it has FREQ=YEARLY anywhere, in any letter case |
| CalDavWindow.FirstEventFilter | backend/caldav/backend.go:363-372 | the window is that of the first filter named VEVENT |
| Temporal.CompareIsAntisymmetric | backend/contactmodel/temporal.go:70-98 | swapping the dates negates the comparison and keeps comparability |
| Temporal.BeforeIsTransitive | backend/contactmodel/temporal.go:70-98 | strictly before is transitive |
| Temporal.EqualIsNotTransitive | backend/contactmodel/temporal.go:70-98 | comparing equal is not |
| Temporal.EqualIff | backend/contactmodel/temporal.go:70-87 | two dates with years compare as equal iff they agree as far as the coarser of them goes |
| Temporal.ComparableIff | backend/contactmodel/temporal.go:70-87 | they compare at all iff both are there with their years |
| Temporal.FullDatesCompare | backend/contactmodel/temporal.go:70-98 | full dates compare by year, then month, then day |
| Temporal.BeforeMeaning | backend/contactmodel/temporal.go:70-98 | strictly before puts every completion before every completion |
| Temporal.ReversedIff | backend/contactmodel/temporal.go:59-62 | a range of valid partial dates is reversed iff no completion puts its start on or before its end |
| Temporal.MeaningHoldsIff | backend/contactmodel/temporal.go:59-98 | for endpoints with components in range, days without months included, that holds except exactly when both name days of one year, the later first, around one unknown month: the start's being December or the end's January |
| Temporal.DayWithoutMonth | backend/contactmodel/temporal.go:70-87 | a range of that kind |
| Temporal.CardEntryIds | backend/contactmodel/temporal.go:115-139 | the non-empty IDs of the collection, none for an unknown kind |
| Temporal.ResolvesMeaning | backend/contactmodel/temporal.go:115-139 | a reference resolves iff its non-empty ID is among the addresses, organizations or titles, as its kind says |
| Temporal.InvalidPeriods | backend/contactmodel/temporal.go:146-163 | in order, exactly the periods that cannot be stored with the card |
| Temporal.PruneOrphanPeriods | backend/contactmodel/temporal.go:170-185 | in order, exactly the periods whose reference resolves |
| Temporal.OnePeriod | backend/contactmodel/temporal.go:146-186 | one period is invalid iff its range is empty or reversed or its reference does not resolve, and pruned iff the latter |
| Temporal.PruningLeavesRangeErrors | backend/contactmodel/temporal.go:146-185 | what is invalid after pruning is exactly the resolving periods with an empty or reversed range |
| Temporal.PruningKeepsValid | backend/contactmodel/temporal.go:165-185 | periods valid against one card are valid against any other once pruned against it |
| Temporal.PruningDropsOnlyOrphans | backend/contactmodel/temporal.go:170-185 | pruning drops nothing iff every reference resolves, is idempotent, and two prunings commute |
| ExportLoss.SetExportLossReportHeader | backend/controllers/export_loss.go:132-178 | the binary search returns what dropping one diagnostic at a time would |
| ExportLoss.EncodedLengthGrows | backend/controllers/export_loss.go:152-158 | the encoded length never shrinks as diagnostics are added |
| ExportLoss.HeaderMeaning | backend/controllers/export_loss.go:143-178 | everything if it fits, else the largest proper prefix that fits, else none; a nil list is rendered as null |
| ExportLoss.BoundIsKeptIff | backend/controllers/export_loss.go:117-178 | the value is within the bound iff the whole report or the empty truncated one is |
| ExportLoss.EscapeComesBack | backend/controllers/export_loss.go:140-178 | unescaping the value gives the JSON back, and the value has only characters that are safe in a header |
| ExportLoss.JsonText | backend/controllers/export_loss.go:132-160 | the JSON spelled out; the count is that of all diagnostics, however many are kept |
| ExportLoss.ShortReport | backend/controllers/export_loss.go:117-178 | within 3072 bytes the report goes out whole, otherwise a proper prefix of it marked truncated |
| Fingerprints.Colon | backend/androidpasskey/androidpasskey.go:46-53 | the pair loop prints the colon form |
| Fingerprints.ColonAt | backend/androidpasskey/androidpasskey.go:46-54 | the printed form character by character: 95 of them, upper-case digits, a colon after every pair but the last |
| Fingerprints.ParseMeaning | backend/androidpasskey/androidpasskey.go:63-91 | parsing yields a digest iff the text, trimmed and lower-cased, is one of its two printed forms |
| Fingerprints.ParseFailures | backend/androidpasskey/androidpasskey.go:63-91 | which error a text gives: empty, the wrong number of pairs or digits, a part that is no pair, a character that is no digit |
| Fingerprints.ParseUndoesColon | backend/androidpasskey/androidpasskey.go:46-91 | any text that lower-cases like the colon form or the compact form of a digest parses to it |
| Fingerprints.HexDecodeMeaning | backend/androidpasskey/androidpasskey.go:85-90 | decoding is the inverse of encoding up to case |
| Fingerprints.ParseFingerprints | backend/androidpasskey/androidpasskey.go:96-118 | the first error, or the strictly ascending list of exactly the fingerprints given |
| Fingerprints.AscendingIsUnique | backend/androidpasskey/androidpasskey.go:116-118 | a set of fingerprints has one such list |
| Fingerprints.LessIff | backend/androidpasskey/androidpasskey.go:116-120 | of two digests the one with the smaller byte where they first differ comes first |
| Fingerprints.Resolve | backend/androidpasskey/androidpasskey.go:231-255 | the reasons in their order, else the strictly ascending union of built-in and operator fingerprints |
| Fingerprints.ReasonsInOrder | backend/androidpasskey/androidpasskey.go:231-256 | why the feature is off, the first of four reasons that applies; otherwise exactly the built-in and the operator's fingerprints |
| Fingerprints.OneOriginEach | backend/androidpasskey/androidpasskey.go:259-270 | one origin for each fingerprint in order, and none when off |
| Fingerprints.Origins | backend/androidpasskey/androidpasskey.go:259-268 | one origin per fingerprint in order, none when off |
| Fingerprints.OrderDoesNotMatter | backend/androidpasskey/androidpasskey.go:231-268 | permuting or repeating operator entries changes neither effectiveness nor fingerprints nor origins |
| Fingerprints.ReasonFollowsOrder | backend/androidpasskey/androidpasskey.go:96-106 | but it can change which bad entry the reason names |

## Left out

- HTTP, authentication, GORM, logging, webhooks and audit records: plumbing; the database is maps and sequences with atomic steps.
- The cap on import sessions, the parse of a share's payload and the preview of Accept: any of them can fail, which is the `ok` of its step.
- Import sessions that no share is bound to: no confirm of a share accepts them.
- The wait of two imports of one session for each other: an import and the consuming of its session are one step.
- A crash of the process during a confirm: all state but the rows is lost then, and nothing is promised.
- AES-GCM, base64, JSON and the float parsing of geo: URIs: library code, represented by laws or by a validity predicate.
- Resolving the master key and deriving keys from the JWT secret: long flat checks.
- Backfill.Store.Run: nobody writes between a column's SELECT and its transaction; what becomes of such writes is stated for one column at a time (LostWriteIff).
- Exif lengths beyond a 64-bit int cannot occur, so PNG lengths are unbounded naturals.
- vCard N, FN, ORG, IMPP, dates, gender, photos and the capture of unmapped properties on import: field copies.
- The vCard adapters and the wire encoding: of the adapter only the order of addresses and their IDs are used; GeoCoordinates allows the encoder to escape commas or not.
- The date-sorted and searched lists of activities, cursor encoding and cursor expiry: the feed branch is the one replicas use.
- Hard deletes from the feed's table: outside what it promises.
- iCalendar parsing, time zones other than UTC and the calendar itself: a time is its UTC year and the nanoseconds in it.
- The JSON encoding of a diagnostic and of the format name: given as the encoder renders them.
- Fingerprints.Parse: the counts in its errors are of characters, where the code counts bytes; they differ on non-ASCII text only.
- Strings that are not valid UTF-8: text is a sequence of code points.
- The check of the front-end URL: a verdict given to Resolve.
