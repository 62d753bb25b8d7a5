# Maple: verified models of its protocols, canonical forms and planners

Dafny models of the logic in Maple on which releases, sessions and builds depend, with proofs about
them. `dafny verify dfyconfig.toml` checks the whole project.

What is modelled, and the main results:

- **Canonical Mach-O bytes** (`MachOGot`, `Arm64Encoding`, `MachOGotMeaning`, `MachOGotForm`, `MachOGotRuns`,
  `MachOImage`, `MachOSections`, `MachOCanonical`, `MachOForm`, `MachOWriter`, `MachOWritten`, `MachOInPlace`, `MachOFat`,
  `MachODecides`). Reproducible iOS builds are compared after zeroing UUIDs and
  linker stubs and re-pointing loads at the lowest duplicate GOT slot. The three in-place passes are proved equal to pointwise maps although they
  read headers and instructions from the buffer they rewrite. From any state, a changed load does the same as before exactly
  when both forms read slots that the image binds alike; in a file with one image, entered from its own ADRP and not through
  register 31, it always does. Laid out as a linker does, two images or universal files get the same bytes exactly when they
  differ only in UUIDs, stubs and loads that end up with the same slot. Canonicalising again changes nothing exactly when every
  load stops where it is sent, as it does with the settled map of a file with one image.
- **Canonical asset listings** (`Json`, `JsonReader`, `JsonNormal`). The normal form, and its JSON text, decide equality up to volatile keys
  and list order.
- **Cargo graph keys** (`CargoReference`, `CargoGraph`, `CargoRelease`, `CargoKey`, `CargoLoops`). Resolving undoes Cargo's
  abbreviations, and the hashed text changes exactly when the dependency graph does.
- **Credential fences** (`CredentialRuns`, `SessionManager`). Over every interleaving of critical sections a fence admits
  exactly when its credential was mutated a multiple of 2^64 times and has its value again: within 2^64 mutations, when it was
  not touched. Conditional updates never overwrite newer credentials, and none changes while an admitted closure runs.
- **The streaming relay** (`Relay`, `HeaderFilter`, `HeaderText`). Every schedule relays a prefix, in order and in time, and what each
  poll emits is exact.
- **Publishing updates** (`Publish`). Crash safety over any history of runs cut off anywhere, and what was published stays.
- **Download events** (`DownloadEvents`, `DownloadRoutes`, `DownloadTexts`, `EventLedger`). What is captured is accepted, what is accepted is recorded
  once, and which accepted events are ever captured is exact.
- **Archive formats** (`NewcReader`, `NewcText`, `NewcLoop`, `NewcFormat`, `NewcRoundTrip`, `PeCanonical`, `PeWriter`, `ArchivePaths`). The newc reader
  is characterised on every archive of the format; PE canonical bytes are invariant under signing; the tar path check does not
  depend on member order.
- **The lane planner** (`LaneRequirements`, `LaneSelection`). Requirements close to the least closed set, cycles are found
  exactly, and the condition under which more changes keep every other lane is exact.
- **Attestation certificates** (`AttestationClock`). Accepted times form one interval, and the two clients are compared exactly.

What is read from bytes or text is compared with writers of the formats that do not use the readers: instructions, Mach-O and PE
images, universal files, newc archives, JSON, header fields, versions and identifiers.

`Bytes`, `Collections`, `Strings` and `Sorting` hold what these share. Bytes and words are integers in range, and
wrap-around is written out. Exceptions become `Err` or `None`. Every lemma turns automatic induction off, because the hypothesis
that Dafny 4.11 generates for it is not guarded by the types of its variables; all inductions are explicit.

Where the code does less than its description suggests, the model follows the code and a lemma says exactly when the property
holds:

- Right after its ADRP, a load through register 31 does not read the slot that the pass computes (`PairReadsItsSlot`). Entered by
  a branch, a rewritten load may read another address than before (`BranchIntoPair`); `StepSameIff` says exactly when it matters.
- One slot map, built from the listing of the whole file, serves all images of a universal file, so duplicates are duplicates in
  that listing. Where the images bind one address to two symbols, the map need not be settled, and then rewriting again can change
  the bytes (`TwoImagesUnsettled`, `RewriteTwiceDiffers`; exactly when: `SettledIff`, `RewriteTwiceIff`, `CanonicalFileTwiceIff`).
  Settled or not, it can send a load to another symbol of its image, so that files which load different symbols get the same bytes
  (`SharedMapMisleads`; exactly when: `SymbolsKeptIff`, `InOrderIff`).
- `Proxy-Connection` crosses the proxy unless `Connection` nominates it (`HopByHopStays`).
- A publishing run is sound exactly when files of one name agree across the platforms whose pointers it wrote
  (`CutRunSoundIff`, `CompleteRunSoundIff`, `ClashIsUnsound`).
- A fence admits again after any positive multiple of 2^64 mutations that leave its value in place, and after no other number
  (`FenceAdmitsIff`, `FenceWrapsAround`).
- Padding an image before signing shows in its canonical bytes (`SigningIsInvisible`), and a certificate table recorded inside
  the headers makes canonicalisation fail the second time (`CanonicalTwice`).
- Editing the PCR approvals drops the image build before requirements are added, which takes along lanes that only it requires
  (`MorePathsKeepLanes`).
- Validation of download events admits combinations of status and range, or of status and alias version, that are never captured
  (`AdmittedNotCaptured`, `CapturedIff`).
- The native certificate check accepts up to 999 milliseconds longer than the web check (`WebIsStricter`).

## Model

| member | source | states |
|---|---|---|
| MachOGot.SignExtendIsTwosComplement | scripts/ci/canonical-ios-app-hash.py:281-283 | for every width, the xor-and-subtract trick is the two's-complement reading: the result is in range and differs from the field by 0 or 2^bits |
| MachOGot.LdrIsNotAdrp | scripts/ci/canonical-ios-app-hash.py:323-339 | no instruction word matches both the ADRP mask and the 64-bit LDR mask |
| MachOGot.CanonicalKeeps | scripts/ci/canonical-ios-app-hash.py:448-480 | a rewritten load keeps its opcode and both registers and now names exactly the canonical slot; an ADRP is never rewritten |
| MachOGot.AdrpSurvives | scripts/ci/canonical-ios-app-hash.py:448-457 | computing a word from a predecessor that was already rewritten gives the same word as from the original one |
| MachOGot.NormalizeLoad | scripts/ci/canonical-ios-app-hash.py:448-480 | one loop iteration writes exactly the canonical form of the word at its offset and no other byte |
| MachOGot.NormalizeTextSection | scripts/ci/canonical-ios-app-hash.py:438-480 | the in-place loop over a buffer it is rewriting equals the pointwise map over the words before the pass; bytes outside whole words stay |
| MachOGot.TextPassByWords | scripts/ci/canonical-ios-app-hash.py:438-480 | the bytes after the pass are the only bytes that spell the rewritten words and keep everything else |
| Arm64Encoding.AdrpDecodes | scripts/ci/canonical-ios-app-hash.py:323-335 | every word encoded as an ADRP, of any register and any number of pages from -2^20 up to 2^20, is read as that ADRP, and from any address names the page that many pages away |
| Arm64Encoding.AdrpIsEncoded | scripts/ci/canonical-ios-app-hash.py:323-335 | every word that is read as an ADRP is so encoded |
| Arm64Encoding.LdrDecodes | scripts/ci/canonical-ios-app-hash.py:338-339 | every word encoded as a 64-bit load, of any two registers and any scaled immediate, is read as that load |
| Arm64Encoding.LdrIsEncoded | scripts/ci/canonical-ios-app-hash.py:338-339 | every word that is read as such a load is so encoded |
| Arm64Encoding.PairIsRepointed | scripts/ci/canonical-ios-app-hash.py:448-480 | on encodings: a load below an ADRP is replaced by the load encoded for the slot that replaces its own, if the ADRP sets its base and the slot can be encoded, and is kept otherwise |
| Arm64Encoding.OnlyPairsChange | scripts/ci/canonical-ios-app-hash.py:448-480 | every word that the pass changes is a load so encoded below an ADRP so encoded, and becomes that load |
| Arm64Encoding.EncodedSteps | scripts/ci/canonical-ios-app-hash.py:331-335 | the machine of `MachOGotRuns` executes both instructions as they are encoded |
| MachOGotMeaning.Lowest | scripts/ci/canonical-ios-app-hash.py:310-320 | picks the smallest bind address of a group |
| MachOGotMeaning.GroupByTarget | scripts/ci/canonical-ios-app-hash.py:296-309 | the groups hold, for each bound symbol, exactly the addresses bound to it, in order of first appearance |
| MachOGotMeaning.DuplicateGotSlots | scripts/ci/canonical-ios-app-hash.py:286-320 | for every listing: a slot that is one of several of a symbol maps to the lowest one of the last symbol, in order of first appearance, that shares it; no other address is mapped |
| MachOGotMeaning.OwnerMapIsSlotMap | scripts/ci/canonical-ios-app-hash.py:310-320 | when no address is bound to two symbols, that is the lowest slot of the one symbol |
| MachOGotMeaning.SettledIff | scripts/ci/canonical-ios-app-hash.py:310-320 | for every listing the map is settled if and only if the lowest slot of each owning symbol is the lowest slot of its own owner |
| MachOGotMeaning.TwoImagesUnsettled | scripts/ci/canonical-ios-app-hash.py:310-320 | a listing of two images of one file, with one address bound to two symbols, whose map is not settled |
| MachOGotMeaning.RewriteTouchesOnlyImmediates | scripts/ci/canonical-ios-app-hash.py:448-480 | over a whole section only bits 10-21 of a load below its ADRP ever change |
| MachOGotMeaning.PairsStay | scripts/ci/canonical-ios-app-hash.py:448-457 | the pass neither makes nor breaks an ADRP and load pair, and leaves the ADRP of every pair as it was |
| MachOGotMeaning.SymbolsKeptIff | scripts/ci/canonical-ios-app-hash.py:310-320 | for the listing of one image and any slot map: every paired load of a section keeps the symbols its slot has in that listing if and only if it binds each rewritten load's slot and the slot it is sent to alike |
| MachOGotMeaning.ListingsKeepSymbols | scripts/ci/canonical-ios-app-hash.py:286-320 | read off the listings of the image and of the whole file: symbols are kept whenever each slot and the lowest one of its owner in the file are bound alike in the image |
| MachOGotMeaning.LoadsKeepTheirSymbol | scripts/ci/canonical-ios-app-hash.py:310-320 | so in a file with one image, whose listing binds no address twice, every paired load keeps its symbol |
| MachOGotMeaning.SlotMapIsSettled | scripts/ci/canonical-ios-app-hash.py:310-320 | canonical addresses are their own canonical addresses |
| MachOGotMeaning.RewriteIsCanonical | scripts/ci/canonical-ios-app-hash.py:466-480 | two sections that differ only in the duplicate slot their loads pick become equal if and only if, wherever they differ, the lowest slot is 8-aligned and 0 to 0x7FF8 bytes past the page |
| MachOGotForm.RewriteDecides | scripts/ci/canonical-ios-app-hash.py:438-480 | for every slot map, two sections are rewritten alike if and only if they differ only in loads, below the same ADRP, that end up with the same slot |
| MachOGotForm.SettledFinal | scripts/ci/canonical-ios-app-hash.py:466-480 | with a settled map, that means two slots of one group whose lowest slot the immediate can name |
| MachOGotForm.RewriteTwiceIff | scripts/ci/canonical-ios-app-hash.py:438-480 | for every section and slot map, rewriting twice is rewriting once if and only if the slot that each rewritten load is sent to is not mapped, is mapped to itself, or is mapped out of reach of its page |
| MachOGotForm.RewriteTwiceDiffers | scripts/ci/canonical-ios-app-hash.py:438-480 | a concrete pair that, with the map two images of one file give, is sent from 16 to 8 and the next time to 0 |
| MachOGotForm.RewriteIdempotent | scripts/ci/canonical-ios-app-hash.py:438-480 | so with a settled map rewriting twice is rewriting once |
| MachOGotRuns.GroupsDecide | scripts/ci/canonical-ios-app-hash.py:310-320 | two addresses hold the same value in every memory the loader may leave for an image if and only if they are the same or linked by symbols of the image's own listing |
| MachOGotRuns.OneGroupIsOneSymbol | scripts/ci/canonical-ios-app-hash.py:310-320 | in a listing of real addresses, none bound twice, linked slots are those of one symbol |
| MachOGotRuns.StepSameIff | scripts/ci/canonical-ios-app-hash.py:438-480 | from any state, however it was reached, and with the slot map of any listing, the rewritten code makes the same step in every such memory if and only if the instruction is unchanged, its result is discarded, or both forms load from linked slots |
| MachOGotRuns.RewriteSimulates | scripts/ci/canonical-ios-app-hash.py:438-480 | a run whose every step is of that kind goes through exactly the states of the original run |
| MachOGotRuns.InOrderIff | scripts/ci/canonical-ios-app-hash.py:459-464 | a changed load entered from its own ADRP, not through register 31, is of that kind if and only if its slot and the slot it is sent to are linked in the image's own listing |
| MachOGotRuns.InOrderIsHarmless | scripts/ci/canonical-ios-app-hash.py:459-464 | so with the slot map of the image's own listing it always is |
| MachOGotRuns.PairReadsItsSlot | scripts/ci/canonical-ios-app-hash.py:459-464 | right after the ADRP of a pair ran, from every state before it, the load reads the slot that was computed, if and only if the shared register is not number 31 |
| MachOGotRuns.BranchIntoPair | scripts/ci/canonical-ios-app-hash.py:449-480 | a concrete pair that, entered by a branch, loads from 0x1008 before the pass and from 0x1000 after it, so that some memory the loader may leave tells the two apart |
| MachOGotRuns.SharedMapMisleads | scripts/ci/canonical-ios-app-hash.py:286-320 | a listing of two images of one file whose map is settled, and a load in the first image that reads one symbol before the pass and another after it, with the same bytes as a load of the other |
| MachOImage.WalkFrame | scripts/ci/canonical-ios-app-hash.py:170-184 | only the eight header bytes of each load command decide where the walk over the commands goes |
| MachOImage.ZeroUuidsKeepsWalk | scripts/ci/canonical-ios-app-hash.py:167-184 | zeroing UUID payloads leaves the walk, hence the set of UUID bytes, as it was |
| MachOImage.ZeroUuidsIdempotent | scripts/ci/canonical-ios-app-hash.py:157-184 | zeroing twice is zeroing once |
| MachOImage.ZeroThinUuids | scripts/ci/canonical-ios-app-hash.py:157-184 | the in-place loop changes exactly the sixteen payload bytes of each UUID command that the walk over the original image visits |
| MachOSections.ImagePassIsFold | scripts/ci/canonical-ios-app-hash.py:221-278 | when rewritten sections lie beyond the command table, a pass that reads headers from the buffer it is writing does to each section of the original image what the original headers say |
| MachOCanonical.PassKeepsSections | scripts/ci/canonical-ios-app-hash.py:221-278 | a pass clear of the table leaves the commands and every section header that any pass reads as they were |
| MachOCanonical.StubPassZeroesStubs | scripts/ci/canonical-ios-app-hash.py:191-278 | exactly the stub bytes become zero, the walk stays, and a second pass changes nothing |
| MachOCanonical.CanonicalBytes | scripts/ci/canonical-ios-app-hash.py:505-508 | every byte of the canonical image: zero in UUIDs and stubs, re-pointed in text, the original elsewhere |
| MachOCanonical.VariantsCanonicalizeAlike | scripts/ci/canonical-ios-app-hash.py:483-508 | two builds of one image that differ only in UUIDs, stub contents and loads that end up with the same slot have the same canonical bytes |
| MachOForm.CanonicalDecides | scripts/ci/canonical-ios-app-hash.py:483-508 | for every slot map, two well-laid-out images have the same canonical bytes if and only if they differ only in UUIDs, stub contents and loads that end up with the same slot |
| MachOForm.CanonicalImageTwiceIff | scripts/ci/canonical-ios-app-hash.py:483-508 | for every slot map, canonicalising a well-laid-out image again changes nothing if and only if every rewritten load stops where it is sent |
| MachOForm.CanonicalImageIdempotent | scripts/ci/canonical-ios-app-hash.py:483-508 | with a settled map the canonical image is itself such a build, and a fixed point |
| MachOWriter.ReadsHeader | scripts/ci/canonical-ios-app-hash.py:261-274 | a section header written field by field, 32-bit or 64-bit and in either byte order, is read back as the section it was written for |
| MachOWriter.OthersAreDropped | scripts/ci/canonical-ios-app-hash.py:187-188 | bytes of a name that are not ASCII do not count |
| MachOWriter.ReadsImage | scripts/ci/canonical-ios-app-hash.py:221-278 | wherever a written thin image stands in a file, the walk visits exactly the commands that were written, and each pass finds exactly the sections written for it |
| MachOWriter.UuidPassOnWritten | scripts/ci/canonical-ios-app-hash.py:157-184 | the UUID pass over a written image gives the same image written with zeros for its UUIDs, and nothing else in the file changes |
| MachOWritten.StubPassOnWritten | scripts/ci/canonical-ios-app-hash.py:191-278 | on a written image the stub pass zeroes exactly the bytes of the sections written as linker stubs |
| MachOWritten.CanonicalOfWritten | scripts/ci/canonical-ios-app-hash.py:483-508 | every byte of the canonical form of a written image: zero where a UUID or stub was written, rewritten where a text was written, and the original elsewhere |
| MachOWritten.ReadsFat | scripts/ci/canonical-ios-app-hash.py:135-155 | reading a written universal file, of either width and byte order, gives exactly the images it lists that lie in it |
| MachOInPlace.ActInPlace | scripts/ci/canonical-ios-app-hash.py:252-276 | what the in-place body does to one section is the sequence function of that section |
| MachOInPlace.RunCommand | scripts/ci/canonical-ios-app-hash.py:239-276 | the inner loop over section headers, in place, with its early break |
| MachOInPlace.RunPass | scripts/ci/canonical-ios-app-hash.py:221-278 | the outer loop over load commands, in place, with all its early returns, equals the pass on sequences; an empty slot map changes nothing |
| MachOFat.ApplyInside | scripts/ci/canonical-ios-app-hash.py:157-184 | each pass over one image of a file reads and writes that image's bytes only |
| MachOFat.FatLoopIsFold | scripts/ci/canonical-ios-app-hash.py:139-155 | when images lie beyond the table that lists them, the loop that reads entries from the changing buffer visits exactly the original images |
| MachOFat.FilePassPerSlice | scripts/ci/canonical-ios-app-hash.py:131-155 | in a file whose images do not overlap, each image gets what it would get alone, every other byte stays, and the table lists the same images |
| MachOFat.CanonicalPerSlice | scripts/ci/canonical-ios-app-hash.py:483-508 | the three passes over a universal file canonicalise each image as if it were alone |
| MachOFat.CanonicalFileTwiceIff | scripts/ci/canonical-ios-app-hash.py:483-508 | for every slot map, canonicalising a universal file again changes nothing if and only if the rewritten loads of all its images stop where they are sent |
| MachOFat.CanonicalFileIdempotent | scripts/ci/canonical-ios-app-hash.py:483-508 | so with a settled map canonicalising a universal file twice is canonicalising it once |
| MachOFat.FileVariantsAlike | scripts/ci/canonical-ios-app-hash.py:483-508 | universal files whose images are pairwise builds of one another, and that agree elsewhere, have the same canonical bytes |
| MachOFat.OneImage | scripts/ci/canonical-ios-app-hash.py:483-508 | a file without a universal header is canonicalised as a single image, even though each pass looks at the header again |
| MachOFat.RunFilePass | scripts/ci/canonical-ios-app-hash.py:127-155 | the loop over the table of images, in place |
| MachOFat.CanonicalizeFile | scripts/ci/canonical-ios-app-hash.py:505-508 | the three in-place passes together compute the canonical file |
| MachODecides.CanonicalFileDecides | scripts/ci/canonical-ios-app-hash.py:483-508 | for every slot map, two universal files have the same canonical bytes if and only if each image is such a build of its counterpart and every other byte is the same |
| Json.EscapeUnique | scripts/ci/canonical-ios-app-hash.py:109 | no escape of a character is a prefix of another, surrogate pairs included |
| Json.QuotedUnique | scripts/ci/canonical-ios-app-hash.py:109 | the text of a string determines the string and where its text ends |
| Json.DumpUnique | scripts/ci/canonical-ios-app-hash.py:109 | the compact JSON text of a value determines the value and where its text ends |
| JsonReader.ReadsEscape | scripts/ci/canonical-ios-app-hash.py:109 | a reader of the JSON grammar reads every escape, named, hexadecimal or a surrogate pair, as the character it was written for |
| JsonReader.RoundTrip | scripts/ci/canonical-ios-app-hash.py:109 | that reader reads the text of every value as the value, and stops where the text ends |
| JsonNormal.NormalFormDecides | scripts/ci/canonical-ios-app-hash.py:60-73 | for trees of any depth, two values normalise equally if and only if they are equal up to volatile keys and list order at every level |
| JsonNormal.CanonicalTextDecides | scripts/ci/canonical-ios-app-hash.py:105-109 | so do their serialised texts |
| JsonNormal.NormalizeIdempotent | scripts/ci/canonical-ios-app-hash.py:60-73 | normalising twice is normalising once |
| JsonNormal.NormalizeValid | scripts/ci/canonical-ios-app-hash.py:60-73 | the normal form has no repeated keys when the value has none |
| JsonNormal.NormalizeOrdersKeys | scripts/ci/canonical-ios-app-hash.py:61-66 | keys come out sorted at every level |
| JsonNormal.DumpLeqAntisymmetric | scripts/ci/canonical-ios-app-hash.py:67-72 | items that compare equal under the sort key are equal, so the sort leaves no choice |
| CargoReference.PrintableIsWord | scripts/ci/cargo_graph_key.py:35 | every printable text without spaces and parentheses can stand in a reference |
| CargoReference.ParseReferenceText | scripts/ci/cargo_graph_key.py:35 | the regular expression reads back every name, version and source that a reference was written from |
| CargoReference.ResolveUndoesSpelling | scripts/ci/cargo_graph_key.py:81-109 | in a lock whose packages can be told apart, resolving the shortest spelling Cargo uses for a package yields that package |
| CargoReference.ResolveLocal | scripts/ci/cargo_graph_key.py:103-106 | without a source, the local package is the one candidate even when third-party packages share its name and version |
| CargoReference.ResolveBySource | scripts/ci/cargo_graph_key.py:76-109 | with a source, the commit after the hash is ignored and exactly the package from that source remains |
| CargoGraph.EdgesTomlDecides | scripts/ci/cargo_graph_key.py:112-131 | the sorted dependency records of two packages are equal if and only if the dependencies are equal as multisets |
| CargoGraph.RecordTellsIdentity | scripts/ci/cargo_graph_key.py:112-131 | a normalised record still tells which package it is, though it has lost its version when local |
| CargoGraph.EntryDecides | scripts/ci/cargo_graph_key.py:112-131 | two packages have the same normalised entry if and only if they mean the same |
| CargoGraph.GraphDecides | scripts/ci/cargo_graph_key.py:112-131 | two locks have equal graphs if and only if they agree outside the packages and have the same third-party packages and fields, the same local packages up to version, and the same resolved dependencies with multiplicity |
| CargoRelease.WrittenLockMeans | scripts/ci/cargo_graph_key.py:112-131 | every lock that Cargo writes for distinguishable packages has a graph, and each package in it means what was written |
| CargoRelease.ReleaseKeepsGraph | scripts/ci/cargo_graph_key.py:1-16 | the graph of a written lock changes if and only if something other than local versions, package order, dependency order and spelling changes |
| CargoKey.DatesAreRefused | scripts/ci/cargo_graph_key.py:158-162 | no date or time is taken for a number |
| CargoKey.JsonValid | scripts/ci/cargo_graph_key.py:158-160 | a value without dates has a JSON form with distinct keys |
| CargoKey.JsonInjective | scripts/ci/cargo_graph_key.py:155-160 | the JSON form of a TOML value determines the value |
| CargoKey.UnixDecides | scripts/ci/cargo_graph_key.py:158 | two pin texts look alike to the key if and only if both come from one text by putting a carriage return before newlines, where each newline after a carriage return of that text gets one |
| CargoKey.DoubleReturnsCount | scripts/ci/cargo_graph_key.py:158 | a text with two carriage returns before its newline and one with a single one are told apart |
| CargoKey.NumeralsAre | scripts/ci/cargo_graph_key.py:158-162 | a sign, digits, and perhaps a fraction and an exponent always make a number |
| CargoKey.KeyTextOkIff | scripts/ci/cargo_graph_key.py:153-163 | there is a key if and only if the lock has a graph and no field that enters it is or holds a date or time; and reading the hashed text gives back the payload |
| CargoKey.KeyTextDecides | scripts/ci/cargo_graph_key.py:153-163 | two keys hash the same text if and only if the graphs and flake locks are equal and the pins are pairwise equal up to such carriage returns |
| CargoKey.PinsCount | scripts/ci/cargo_graph_key.py:10-12 | so pins without carriage returns give the same text if and only if they are equal |
| CargoKey.ReleaseKeepsKey | scripts/ci/cargo_graph_key.py:153-163 | the hashed text of a written lock changes if and only if something other than local versions, package order, dependency order and spelling changes |
| CargoLoops.ReadPackages | scripts/ci/cargo_graph_key.py:49-67 | the loop that reads packages fails exactly where the specification does |
| CargoLoops.CheckIdentities | scripts/ci/cargo_graph_key.py:64-73 | the dictionary of seen identities finds a repetition if and only if there is one |
| CargoLoops.GroupByName | scripts/ci/cargo_graph_key.py:117-119 | each group holds exactly the packages of its name, in order |
| CargoLoops.ResolveAll | scripts/ci/cargo_graph_key.py:125-126 | resolving through the groups gives the same edges, or the same failure, as resolving against all packages |
| CargoLoops.BuildGraph | scripts/ci/cargo_graph_key.py:112-131 | the loops together compute the graph, or fail where it is undefined |
| CredentialRuns.GenerationsCount | sdk/rust/src/session.rs:63-180 | in every interleaved run each counter has advanced by the number of mutations of its kind, modulo 2^64, and without one the credential is unchanged |
| CredentialRuns.FenceAdmitsIff | sdk/rust/src/session.rs:222-261 | in every run of any length a fence admits if and only if the mutations of its kind since its snapshot are a multiple of 2^64 and its value is held |
| CredentialRuns.FenceAdmitsUnchanged | sdk/rust/src/session.rs:222-261 | so with fewer than 2^64 of them it admits if and only if there was none, and re-installing an identical token is rejected |
| CredentialRuns.FenceWrapsAround | sdk/rust/src/session.rs:222-261 | after any multiple of 2^64 re-installations of one pair the old fence admits again |
| CredentialRuns.MutationDecides | sdk/rust/src/session.rs:63-180 | after every install, access-token update or clear, and over every run with fewer than 2^64 further mutations of the kind, a fence with a value at the new generation admits if and only if there was none and the step offered that value, or kept it as the refresh token |
| CredentialRuns.ClearAdmitsNone | sdk/rust/src/session.rs:359-381 | after a clear and until the next mutation of its kind, no fence with a value admits, whatever its generation |
| CredentialRuns.SessionIsLast | sdk/rust/src/session.rs:93-124 | in every run the session is the one that the last step about it left |
| CredentialRuns.AnonymousMeans | sdk/rust/src/session.rs:203-213 | nobody is signed in if and only if no fence with a value admits |
| CredentialRuns.NewAdmits | sdk/rust/src/session.rs:44-61 | a new manager holds no lock, and admits exactly its key at generation 1, if it has one |
| CredentialRuns.FreeIsOpen | sdk/rust/src/session.rs:222-285 | while nobody holds the credential lock, every step can be taken but the end of one that has not begun |
| CredentialRuns.LocksAreReleased | sdk/rust/src/session.rs:222-285 | no run deadlocks: from wherever it stands, ending what has begun frees the credential lock |
| CredentialRuns.ConditionalSucceedsIff | sdk/rust/src/session.rs:141-180 | in every run of any length a conditional operation succeeds if and only if the mutations of its kind are a multiple of 2^64 and, for a handoff, nobody is signed in |
| CredentialRuns.ConditionalNeverOverwrites | sdk/rust/src/session.rs:141-180 | so with fewer than 2^64 of them it succeeds if and only if nothing of its kind changed, and what it replaces is what the snapshot showed |
| CredentialRuns.ReadLockFreezes | sdk/rust/src/session.rs:230-261 | while an admitted closure runs under the read lock, no interleaving changes a credential |
| CredentialRuns.AdmittedRunsOnItsSnapshot | sdk/rust/src/session.rs:222-261 | from its snapshot until its closure returns, an admitted request has the one credential whose fence it carries |
| CredentialRuns.HeldLockFreezes | sdk/rust/src/session.rs:383-399 | while a conditional full clear holds the lock, no interleaving changes a credential |
| CredentialRuns.FullClearNeverOverwrites | sdk/rust/src/session.rs:383-399 | a conditional full clear removes exactly the credentials of its snapshot, whatever other threads do between its two steps |
| CredentialRuns.HandoffAgainIff | sdk/rust/src/session.rs:287-311 | in every run of any length a second handoff for a redeemed generation succeeds if and only if the mutations since, the first install included, are a multiple of 2^64 and nobody is signed in |
| CredentialRuns.HandoffAtMostOnce | sdk/rust/src/session.rs:287-311 | so within 2^64 mutations one anonymous generation is redeemed at most once |
| CredentialRuns.GenerationsBalance | sdk/rust/src/session.rs:51-91 | in every run the generation plus the number of full clears equals the token and API-key generations together, modulo 2^64 |
| CredentialRuns.NewIsBalanced | sdk/rust/src/session.rs:44-61 | both constructors start in balance |
| SessionManager.Manager.SetApiKey | sdk/rust/src/session.rs:63-72 | the new state is the step SetApiKey of the state machine |
| SessionManager.Manager.ClearApiKey | sdk/rust/src/session.rs:82-91 | the new state is the step ClearApiKey, which counts even when there was no key |
| SessionManager.Manager.SetTokens | sdk/rust/src/session.rs:126-139 | the new state is the step SetTokens |
| SessionManager.Manager.SetTokensIfGeneration | sdk/rust/src/session.rs:141-162 | reports success exactly when the step succeeds, and otherwise changes nothing |
| SessionManager.Manager.ClearTokensIfGeneration | sdk/rust/src/session.rs:164-180 | reports success exactly when the step succeeds, and otherwise changes nothing |
| SessionManager.Manager.Snapshot | sdk/rust/src/session.rs:182-194 | shows the credentials with all three generations of one moment |
| SessionManager.Manager.AnonymousGeneration | sdk/rust/src/session.rs:203-213 | yields the generation exactly when there is neither token nor key |
| SessionManager.Manager.AdmitIfCurrent | sdk/rust/src/session.rs:222-261 | runs the closure and returns its result exactly when there is no fence or the step that begins the admission succeeds |
| SessionManager.Manager.AdmitIfAnonymous | sdk/rust/src/session.rs:268-285 | runs the closure and returns its result exactly when the generation is current and still anonymous |
| SessionManager.Manager.SetTokensIfAnonymousGeneration | sdk/rust/src/session.rs:287-311 | installs exactly when the generation is current and still anonymous |
| SessionManager.Manager.UpdateAccessToken | sdk/rust/src/session.rs:343-357 | replaces the access token and counts, or fails without tokens and changes nothing |
| SessionManager.Manager.ClearTokens | sdk/rust/src/session.rs:359-368 | the new state is the step ClearTokens |
| SessionManager.Manager.ClearAll | sdk/rust/src/session.rs:370-381 | the session step and then the credential step |
| SessionManager.Manager.ClearAllIfGeneration | sdk/rust/src/session.rs:383-399 | both steps when the generation is the expected one, and none otherwise |
| Relay.Stream.PollNext | proxy/src/proxy.rs:350-392 | one poll of the stateful relay is one step of the model, events included |
| Relay.RelayIsFaithful | proxy/src/proxy.rs:350-392 | for every upstream and polling schedule the output is a prefix of the upstream chunks in order, then at most one final error |
| Relay.RelayIsTimely | proxy/src/proxy.rs:357-380 | each chunk is obtained strictly before its idle deadline and before the total deadline if there is one; a timeout is reported only after its deadline, and directly after the upstream was dropped |
| Relay.RelayProgresses | proxy/src/proxy.rs:350-392 | over every run and its next poll, an open stream emits exactly the drop and the timeout when the idle time since the first poll after its last chunk, or the request deadline, has passed; otherwise exactly the next upstream item if it is ready, and nothing if it is not |
| Relay.RelayStops | proxy/src/proxy.rs:364-392 | after an error the next poll emits exactly the end, and after the end nothing is emitted |
| Relay.DroppedIff | proxy/src/proxy.rs:364-370 | the upstream is let go of if and only if that was emitted |
| Relay.BodyTimesOutIff | proxy/src/proxy.rs:294-319 | an open body times out if and only if it has been idle too long or, unless its headers say event stream, its request is out of time |
| Relay.RequestDeadlineCoversBody | proxy/src/proxy.rs:294-319 | a response whose headers do not say event stream yields nothing once its request is out of time, and one whose headers do is never cut off by the request deadline |
| HeaderFilter.CopySafe | proxy/src/proxy.rs:235-246 | for every name the destination gains all the source's values in order if the name passes, and none otherwise |
| HeaderFilter.HopByHopStays | proxy/src/proxy.rs:258-282 | a connection-specific field crosses if and only if it is a Proxy-Connection that Connection does not nominate; no nominated field crosses |
| HeaderFilter.CrossesIff | proxy/src/proxy.rs:258-349 | a field of the source crosses if and only if it is not nominated and is, for a request, no credential, forwarding, framing, encoding or proxy field, and for a response no framing, cookie or proxy field |
| HeaderFilter.CopyTwice | proxy/src/proxy.rs:235-256 | a second copy of the copy changes nothing |
| HeaderFilter.EventStreamCrosses | proxy/src/proxy.rs:313-332 | the copied headers say event stream if and only if the response's do and Connection does not nominate the type |
| HeaderText.NominationsAre | proxy/src/proxy.rs:248-256 | a Connection value written as a list nominates exactly its tokens, in lower case, whatever blanks are around them; other elements nominate nothing |
| HeaderText.OtherValuesNominateNothing | proxy/src/proxy.rs:248-256 | a value that is not visible text nominates nothing |
| HeaderText.LowerCases | proxy/src/proxy.rs:313-319 | lower case changes exactly the letters A to Z, each to its own |
| HeaderText.EventStreamIs | proxy/src/proxy.rs:313-319 | a content type is an event stream by its name alone, whatever its case, blanks and parameters, and only the first one counts |
| Publish.CutRunSoundIff | services/agent-updates/publish.py:113-135 | a run of a version no older than any before it, cut off after any upload, leaves a sound store if and only if each package whose pointer was written agrees with the payloads that were stored |
| Publish.RunKeepsSound | services/agent-updates/publish.py:113-135 | so with files that agree, a run cut off anywhere leaves every live pointer naming stored payloads with the signed digests, and the pointers in order |
| Publish.NamedIsNeverOverwritten | services/agent-updates/publish.py:101-106 | within a run, every upload under a release path happens while no pointer names that version |
| Publish.HistoryIsSound | services/agent-updates/publish.py:101-135 | soundness and order hold over every sequence of runs with non-decreasing versions whose files agree, each cut off anywhere |
| Publish.HistoryKeepsOrder | services/agent-updates/publish.py:101-135 | over every sequence of runs with non-decreasing versions, each cut off anywhere and whatever its files are, no pointer is newer than the first one, and the first one no newer than the last attempt |
| Publish.HistoryKeepsPublished | services/agent-updates/publish.py:101-135 | over every such sequence, with no condition on the files, what is stored under a version no newer than the first pointer's stays exactly as it is |
| Publish.NamedStaysForever | services/agent-updates/publish.py:101-135 | so, whatever the files are, nothing under a version that any pointer names is ever overwritten, removed or added to |
| Publish.CompleteRunSoundIff | services/agent-updates/publish.py:113-135 | a complete run is sound if and only if files of one name have one digest across the platforms |
| Publish.PointerHasItsManifest | services/agent-updates/publish.py:113-135 | once a run, wherever it is cut off, has written the pointer of a feed, that pointer holds the signed manifest of the feed's own package, and the release holds the same manifest under the feed's name |
| Publish.ClashIsUnsound | services/agent-updates/publish.py:113-135 | two concrete platforms whose archives share a name, which leave a live pointer with other bytes than it signs |
| Publish.GuardMustBeFirst | services/agent-updates/publish.py:27-36 | were any other feed guarded, a run cut off after its first pointer could be repeated with a rebuilt update of the same name, and its first upload would overwrite the payload that the live pointer names, turning a sound store into an unsound one |
| Publish.Bucket.UploadAll | services/agent-updates/publish.py:113-135 | uploads happen in order, and exactly as many as the crash allows |
| Publish.CollectPayloads | services/agent-updates/publish.py:117-123 | the payload dictionary keeps first-seen order and the last digest of each name |
| Publish.PublishRelease | services/agent-updates/publish.py:95-135 | the script up to a crash after any number of uploads is the cut-off run of the model |
| DownloadEvents.RouteIsAcceptable | services/download-tracking/tracking.ts:160-244 | whatever the URL, status and redirect, a produced route is one of the combinations that validation admits, with a stable version |
| DownloadEvents.CaptureIsAccepted | services/download-tracking/tracking.ts:280-344 | every event that capture builds, for any request and response, passes the consumer's validation |
| DownloadRoutes.RoutesDecide | services/download-tracking/tracking.ts:160-244 | with any resolver of redirect targets that reads plain https texts as they are written, a product and route are admitted by validation, for some range, if and only if some URL and response produce them |
| DownloadRoutes.CapturedFits | services/download-tracking/tracking.ts:280-344 | in every captured event an alias has a version only with status 302, and the range fits the status |
| DownloadRoutes.CapturedIff | services/download-tracking/tracking.ts:366-474 | with any such resolver, of the events that validation admits exactly those that fit so are ever captured |
| DownloadRoutes.FeedsAreClassified | services/download-tracking/tracking.ts:186-217 | the pointer and the manifest path of every feed that publishing writes are classified with that feed's platform |
| DownloadRoutes.AdmittedNotCaptured | services/download-tracking/tracking.ts:429-474 | an alias with a version and status 200, and a partial range with status 200, are admitted and never captured, whatever the resolver |
| Strings.ContainsIff | services/download-tracking/tracking.ts:165-180 | a text includes another if and only if it is something, that, and something |
| Strings.EndsWithIff | services/download-tracking/tracking.ts:90-115 | and ends with it if and only if it is something and that |
| DownloadTexts.VersionIff | services/download-tracking/tracking.ts:80-82 | the stable versions are exactly the texts of at most 64 characters that three numbers without leading zeros make with dots between them |
| DownloadTexts.Uuid4Iff | services/download-tracking/tracking.ts:366-380 | the event identifiers that validation admits are exactly the version 4 UUIDs in lower case |
| DownloadTexts.OutcomeIs | services/download-tracking/tracking.ts:254-260 | the outcome is the class of the status, with 304 set apart |
| DownloadTexts.AliasIff | services/download-tracking/tracking.ts:118-134 | a name is an alias of an artifact if and only if the product has that artifact under that name, or it is the second name of the Windows installer |
| DownloadTexts.AliasIsRouted | services/download-tracking/tracking.ts:219-226 | every alias, at the folder of its product, is routed to its artifact, without a version when there is no redirect |
| EventLedger.Queue.Send | services/download-tracking/tracking.ts:267-277 | a send is taken or not, and reported or not, independently |
| EventLedger.Enqueue | services/download-tracking/tracking.ts:267-277 | at most two attempts, the second only after a reported failure, always of the same event |
| EventLedger.Database.Run | services/download-tracking/tracking.ts:476-480 | an insert leaves the first row of an identifier alone |
| EventLedger.ConsumeEvents | services/download-tracking/tracking.ts:483-521 | a message is acknowledged if and only if it is valid and its insert was reported done, and then its row is there; one row per identifier throughout |
| EventLedger.StepKeepsLedger | services/download-tracking/tracking.ts:483-521 | one row per identifier and no acknowledgement without its row survive every step, and no row is lost |
| EventLedger.RunKeepsLedger | services/download-tracking/tracking.ts:267-521 | the same over every run with duplicate sends, redelivery and ambiguous failures |
| EventLedger.WhereMessagesAre | services/download-tracking/tracking.ts:267-521 | in every run a message is delivered, acknowledged or dead if and only if that happened to it, and queued if and only if it was taken and neither given up nor acknowledged with the queue noticing |
| EventLedger.DrainedIsExactlyOnce | services/download-tracking/tracking.ts:267-521 | once the queue is drained and nothing was given up, the rows are exactly the delivered events, one for each identifier |
| NewcLoop.Input.ReadExact | scripts/ci/verify_opensecret_eif_rootfs.py:85-88 | succeeds exactly when that many bytes are left, and returns them |
| NewcLoop.Input.SkipExact | scripts/ci/verify_opensecret_eif_rootfs.py:91-95 | the chunked loop skips exactly the size, or fails exactly when it cannot |
| NewcLoop.NextBody | scripts/ci/verify_opensecret_eif_rootfs.py:127-144 | the running count stays equal to the file position through contents and padding |
| NewcLoop.NextEntry | scripts/ci/verify_opensecret_eif_rootfs.py:104-144 | one iteration is one step of the specification, from one multiple of four to the next, with the running count equal to the bytes consumed |
| NewcLoop.NewcEntries | scripts/ci/verify_opensecret_eif_rootfs.py:98-145 | the reader computes the specified result for every byte string |
| NewcText.ConstantsAre | scripts/ci/verify_opensecret_eif_rootfs.py:107-128 | the magic number is 070701 and the trailer's name TRAILER!!! |
| NewcText.Utf8Iff | scripts/ci/verify_opensecret_eif_rootfs.py:119-122 | the names that decode are exactly the UTF-8 encodings of texts of Unicode scalar values |
| NewcText.ParseHexIff | scripts/ci/verify_opensecret_eif_rootfs.py:108-111 | a header field is read as a number if and only if it is blanks, a sign, a prefix, digits in either case with single underscores, and blanks, and then as the number that its digits write |
| NewcFormat.ParseDigits | scripts/ci/verify_opensecret_eif_rootfs.py:108-111 | on eight plain digits the lenient number parser reads the plain number |
| NewcFormat.EntryParses | scripts/ci/verify_opensecret_eif_rootfs.py:104-144 | an entry laid out at the cursor is passed over exactly, or refused exactly when a limit is passed, its name is bad or its name came before |
| NewcFormat.TrailerParses | scripts/ci/verify_opensecret_eif_rootfs.py:128-133 | the trailer ends the archive exactly when it is empty and at most a page of zeros follows |
| NewcFormat.RefusesEarlyTrailer | scripts/ci/verify_opensecret_eif_rootfs.py:128-133 | an entry with the trailer's name and anything after it is refused |
| NewcFormat.ArchiveParses | scripts/ci/verify_opensecret_eif_rootfs.py:98-145 | every archive in the newc layout, whatever its padding, digit case and unread fields, is accepted if and only if its entries are within the limits and distinctly named, and then yields exactly the selected entries |
| NewcRoundTrip.HeaderDescribes | scripts/ci/verify_opensecret_eif_rootfs.py:107-112 | a written header has thirteen fields of eight digits that read back as what was written |
| NewcRoundTrip.ArchiveIsWellFormed | scripts/ci/verify_opensecret_eif_rootfs.py:98-145 | the writer's output is in the newc layout |
| NewcRoundTrip.RoundTrip | scripts/ci/verify_opensecret_eif_rootfs.py:98-145 | reading back what was written returns exactly the selected entries, or is refused exactly when a limit is passed or a name repeats |
| PeCanonical.LayoutOf | scripts/ci/canonical-windows-nsis-payload-hash.py:82-105 | when a layout is found, the fields read to find it, the checksum and the certificate entry never overlap and lie in the optional header |
| PeCanonical.WriteU32 | scripts/ci/canonical-windows-nsis-payload-hash.py:45-48 | writes the four little-endian bytes of a word and nothing else |
| PeCanonical.CanonicalPeBytes | scripts/ci/canonical-windows-nsis-payload-hash.py:78-124 | overwriting three words in a buffer and cutting it computes the image with its volatile fields zeroed, with every error of the original |
| PeCanonical.HeaderDecides | scripts/ci/canonical-windows-nsis-payload-hash.py:81-105 | images that agree on the header outside the volatile fields have the same layout |
| PeCanonical.CanonicalBytes | scripts/ci/canonical-windows-nsis-payload-hash.py:107-124 | every byte kept is the image's own or a zeroed volatile byte, and what is cut off is exactly the aligned table |
| PeCanonical.SignedCanonical | scripts/ci/canonical-windows-nsis-payload-hash.py:78-124 | the canonical form of a signed image is that of the unsigned image followed by the padding the signer added before the table |
| PeCanonical.SigningIsInvisible | scripts/ci/canonical-windows-nsis-payload-hash.py:78-124 | for every unsigned PE32 or PE32+ image, any checksum and any table: canonical bytes are unchanged by signing if and only if no padding was added before the table |
| PeCanonical.CanonicalTwice | scripts/ci/canonical-windows-nsis-payload-hash.py:78-124 | canonicalising twice succeeds with the same bytes, except exactly when the recorded table starts inside the headers yet after the signature, where it is refused |
| PeCanonical.CanonicalTwiceCanFail | scripts/ci/canonical-windows-nsis-payload-hash.py:78-124 | a concrete image for which the second time is refused |
| PeCanonical.CanonicalHidesOnlySigning | scripts/ci/canonical-windows-nsis-payload-hash.py:78-124 | images with equal canonical bytes agree on every byte of them that is volatile in neither, and have the same layout unless a recorded table starts inside the headers |
| PeCanonical.CanonicalDecides | scripts/ci/canonical-windows-nsis-payload-hash.py:78-124 | images that keep their headers have the same canonical bytes if and only if as much of each is kept, and that agrees outside the volatile fields |
| PeWriter.ReadsPe | scripts/ci/canonical-windows-nsis-payload-hash.py:82-107 | in every image written field by field, PE32 or PE32+, the checksum and the certificate directory are found where they were written |
| PeWriter.CanonicalOfWrittenPe | scripts/ci/canonical-windows-nsis-payload-hash.py:78-124 | the canonical bytes of a written image are those of the image written unsigned and without a checksum, up to the recorded table; it is refused if and only if it records a table that does not reach the end of the file within its padding to eight bytes |
| ArchivePaths.ParentsAreAncestors | scripts/ci/sdk_publish.py:240-243 | splitting at slashes and joining leading parts gives exactly the paths that, with a slash, are a prefix of the path |
| ArchivePaths.Admits | scripts/ci/sdk_publish.py:238-246 | a member passes the three tests against the dictionary if and only if it is compatible with each earlier member |
| ArchivePaths.CheckPaths | scripts/ci/sdk_publish.py:233-247 | the loop accepts if and only if there are at most 1024 members, pairwise compatible, and then the dictionary records exactly them |
| ArchivePaths.AcceptableMeans | scripts/ci/sdk_publish.py:238-246 | that is: paths are distinct, and no file path is a proper ancestor of another path |
| ArchivePaths.OrderDoesNotMatter | scripts/ci/sdk_publish.py:233-247 | every permutation of the members is accepted alike and records the same paths |
| LaneRequirements.AddRequired | scripts/ci/plan.py:96-99 | one lane's requirements are selected, new ones are left pending, and each gets the reason |
| LaneRequirements.WithRequirements | scripts/ci/plan.py:90-100 | for every requirement relation, cyclic ones included, the loop ends with exactly the lanes reached from the selected ones; each added reason names a selected lane that requires it, and every requirement has its reason |
| LaneRequirements.ReachesIsLeastClosed | scripts/ci/plan.py:90-100 | the lanes reached are the least superset closed under requirements |
| LaneRequirements.LeadsToItself | scripts/ci/plan.py:534-543 | the depth-first search reports a cycle if and only if the lane reaches itself |
| LaneSelection.ChooseByPath | scripts/ci/plan.py:109-124 | one path adds exactly the lanes it selects, in the inert, unclassified and ordinary cases |
| LaneSelection.ChooseByPaths | scripts/ci/plan.py:106-124 | all paths together add exactly the lanes that some path selects, and the approvals flag is set exactly when some path edits them |
| LaneSelection.Select | scripts/ci/plan.py:103-131 | the selection is exactly the closure of the chosen lanes |
| LaneSelection.SelectsIff | scripts/ci/plan.py:44-131 | a change selects a lane if and only if requirements lead to it from a lane of the event that a label names or a path concerns: the detector names it, nothing knows the path, or the path is not inert and is the planner's own, for a gate lane, or matches a glob of the lane and no excluding one; the image build left out when the approvals were edited |
| LaneSelection.UnknownSelectsAll | scripts/ci/plan.py:115-120 | one path that no selector knows, or that is not inside the repository, selects every lane of the event |
| LaneSelection.InertSelectsNothing | scripts/ci/plan.py:109-114 | paths that are all inert, and that the enclave detector does not name, select nothing |
| LaneSelection.MalformedIff | scripts/ci/plan.py:61-62 | a path is refused if and only if it is empty or absolute or has two dots between slashes |
| LaneSelection.MorePathsKeepLanes | scripts/ci/plan.py:103-131 | adding changed paths keeps every lane but the image build if and only if the image build is not dropped, or the lanes it requires directly are selected without it |
| LaneSelection.MorePathsNeverDeselect | scripts/ci/plan.py:103-131 | so with an image build that requires nothing, as in the repository's table, adding paths never deselects another lane |
| LaneSelection.MorePathsCanDeselect | scripts/ci/plan.py:129-131 | a table in which adding a path does deselect a lane |
| AttestationClock.VerifyValidity | sdk/rust/src/attestation.rs:431-471 | accepts if and only if every certificate holds at the device second; otherwise reports the first that does not, and why; the out-of-range clock cannot happen |
| AttestationClock.FailureSaysWhy | sdk/rust/src/attestation.rs:444-468 | the reason of a failed check is the unreadable certificate, the end that has passed, or otherwise the start more than five minutes ahead |
| AttestationClock.NativeInterval | sdk/rust/src/attestation.rs:431-471 | for a chain of any length the accepted times are one interval, from the latest notBefore less five minutes to the end of the earliest notAfter's second |
| AttestationClock.NativeIsWebAtSecond | sdk/rust/src/attestation.rs:436-458 | the native check is the web check at the start of the device second |
| AttestationClock.VerifyChain | sdk/rust/src/attestation.rs:335-421 | accepts if and only if the bundle starts with the pinned root and each certificate is issued and signed by the one before it, down to the leaf |
| AttestationClock.LeafInheritsTrust | sdk/rust/src/attestation.rs:369-418 | whatever holds of the root and passes from a certificate to what names it as issuer and carries its signature holds of the leaf |
| AttestationClock.WebInterval | sdk/src/lib/attestationClock.ts:94-99 | folded over a chain, the accepted times are one interval of milliseconds that ends with the earliest notAfter itself |
| AttestationClock.WebIsStricter | sdk/src/lib/attestationClock.ts:94-99 | the web check never accepts what the native one rejects, agrees at whole seconds, and differs exactly in the milliseconds after the earliest notAfter within its second |

## Left out

- `strip`, `codesign` and `dyld_info`: their output is the input of the Mach-O model (bytes and fixups).
- Property lists, asset catalogue extraction and bundle hashing: parsing and I/O around the modelled normal forms.
- Numbers in JSON and TOML: kept as their text, so two spellings of one number count as different.
- Lone surrogates in JSON strings: a Dafny character is a Unicode scalar value.
- TOML and JSON parsing and the digest of `cargo_graph_key.py`: the parsed locks are the input, the flake lock with its keys in order, and the hashed text is the output.
- Lock poisoning in the session manager, and the getters that only read one field.
- Timer granularity and the send phase of the proxy: time is a natural number, and the relay starts when the response has arrived.
- Hashing, signatures, X.509 and CBOR parsing: signature checks and parsing are parameters of `AttestationClock`, digests are strings.
- The signing of update manifests and the uploads themselves: a store is a map, and an upload happens or does not.
- JavaScript values that have not the shape of an event: typed fields stand for the shape checks of `isDownloadEvent`.
- CaptureIsAccepted: takes the identifier to be a version 4 UUID and the clock to be in a four-digit year, as the runtime provides them.
- RunFilePass: an image that is itself universal is left alone, where the source recurses, without a bound when an image contains itself.
- CanonicalizeFile: the same holds of the three passes together.
- LoadsKeepTheirSymbol: takes listings in which no address has two symbols, as the listing of one image has; `SymbolsKeptIff` has no such condition.
- Resolving a redirect target against the request: a parameter of the classifier. `RoutesDecide` and `CapturedIff` hold for every resolver that reads `https://`, one of the three hosts and a plain path as what they say; `CutTextReads` gives one.
- Which newc names are selected: a parameter, because the two regular expressions do not affect reading.
- Gzip and tar decoding, and the checks of one archive member alone: a member comes with its case-folded path, or none when refused.
- Case folding, glob matching and the enclave service's change detector: parameters of the models that use them.
- The contents of the lane table, quarantine, and the verdict over job results.
- Message texts, logging and command-line parsing.
