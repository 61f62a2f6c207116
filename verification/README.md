# A verified model of the RocksDB cluster

The repository runs RocksDB on a shared GFS2 volume for a fleet of EC2 instances: one
writer, many readers. This project models its five pieces of real logic and proves what
they promise.

- **The cluster watcher** (`scripts/cluster_watcher.sh`) reconciles the node list of
  `corosync.conf`, corosync's grow-only runtime node list, a node-id counter, the ring
  and the expected votes. `Membership.dfy` is the state machine and its theorems over
  whole runs; `IdReuse.dfy` says when ids are reused after all; `ConfText.dfy` and
  `ConfEdits.dfy` are the configuration text and the three awk programs that edit it;
  `Watcher.dfy` is the watcher's functions as methods that edit that text and keep a
  history of events and of passes; `JoinGate.dfy` and `Watchdog.dfy` are the two timers.
- **The REST service** (`scripts/rocksdb_service.cc`): escaping (`Json.dfy`), the field
  extractor and the batch scanner (`Fields.dfy`, `FieldLayouts.dfy`), query strings
  (`Query.dfy`), the data requests on an ordered map (`Store.dfy`), what a client sees over
  several requests (`Requests.dfy`), reading one request from a socket (`HttpRead.dfy`), parsing it
  (`HttpParse.dfy`), the whole way of a request (`HttpRoundTrip.dfy`), and the response
  text (`HttpReply.dfy`).
- **The election and the promotion script** (`rocksdb_stack.py`,
  `scripts/promote_reader.sh`, the admin handlers of the service): `Election.dfy`, a
  protocol whose steps interleave with boots, restarts and terminations.
- **The SST generator** (`stress-test/sst_generator.cc`): zero-padded decimals
  (`DecimalOrder.dfy`), the value generator (`FillRandom.dfy`), files and ingestion
  (`SstGen.dfy`).

`Text.dfy` holds strings, byte order and decimals. A `std::string` is a Dafny `string`
whose characters are bytes.

## Where the code falls short of its promise

The model follows the code. Where a promise does not hold of the code on all inputs, the
project proves exactly when it does.

- `jfield` and the batch scanner take a quote for a closing one exactly when no backslash
  precedes it, so a string that ends in a backslash is misread: `Fields.ExtractorExact`,
  `Fields.BatchExact`.
- Neither unescapes, so `/put` stores escaped text and `/get` escapes it again:
  `Requests.PutThenGet`.
- Text after the announced body is kept or cut depending on how the bytes arrive, and a
  body that spells `Content-Length:` is taken for the header when the header itself is
  written in lower case: `HttpRead.ChunkingExactly`, with `HttpRead.SurplusDependsOnChunking`
  and `HttpRoundTrip.LowerCaseMisread` as instances.
- A page whose last key is empty hands out an empty cursor, which restarts the scan:
  `Requests.EmptyCursor` says when, `Requests.AscendExactly` and `Requests.PagesExact` that
  nothing else goes wrong.
- The id lookup runs on into the next block when a block names its id before its address:
  `ConfEdits.LookupIsIdOf`.
- The id counter is checked against `corosync.conf` only, so an id that is left in the
  runtime list, or in the configuration above the counter, may be reused:
  `IdReuse.NextJoinClashes` for the next join, `IdReuse.ReuseExactly` for whole runs.
- The promotion script goes on when its wait for `readonly` runs out, and a boot before
  the new writer is recorded in SSM can elect a second one: `Election.PromoteAfterTimeout`,
  `Election.BootBeforeRecord`.
- The lookups, requests and writes of boots and promotions may fail unnoticed (`|| true`,
  `|| echo ""`). After a lost retag the next promotion demotes the wrong node:
  `Election.NextPromotion`, reached in `Election.LostRetagReached`; in
  `Election.LostRecordReached` a boot makes the second writer. Whether what was lost can do harm later is decided by the
  tags alone: operation that loses nothing more can still lead to two writers exactly when
  the tag search does not find the writer and no other node (`Election.PatienceExactly`,
  `Election.PatienceWithWriter`), whatever SSM says. Only where operations check that the
  node found is the one SSM names does it suffice that SSM names the writer
  (`Election.CareExactly`); `Election.SingleWriter` has the checks that make up for every
  such loss.
- Joins late in a pass of the watcher, and a ring that shrinks during it, can undo its
  pins: `Watcher.MainLoop.Pass` says when the ring is quorate at its end.
- Key order breaks past 10^16 keys and file-name order past 10^6 files:
  `SstGen.AscendingExactly`, `SstGen.SortRestores`.
- `http_resp` prints every status other than 200, 403 and 404 as 500
  (`scripts/rocksdb_service.cc:106-107`), although `docs/13-security.md` promises 400 and
  413: `HttpReply.ResponseBack`. Elsewhere a `Reply` carries the code handed to `http_resp`.

## Assumptions

One watcher runs. Within a pass EC2 answers truthfully and once per address (in the
script a failing AWS call reads as "not running"). A reload adds unknown ids to
corosync's runtime list, rebinds and drops none, and may raise the expected votes to the
size of the configuration. Each ring member has one vote. `grep -qw` on an address is
exact membership. Every block of the watcher's `corosync.conf` names its address before its
id, as pcs and the insert program write them. Of the calls of the watcher whose failure
`|| true` swallows, killing an id and removing a node come in as sets of addresses on which
they succeed; its own reloads and `corosync-quorumtool -e` succeed. The lookups, requests and
writes of the election and the promotion that may fail so are flags of their steps. Boots are
atomic, terminations permanent. Promotions do not overlap, where a promotion lasts until its
script has ended and its promote request was served or lost.

## Model

| member | source | states |
|---|---|---|
| Json.Escape | scripts/rocksdb_service.cc:60-87 | the escaper's loop produces `Escaped`, the text that section 7 of RFC 8259 readers undo |
| Json.ReadEscaped | scripts/rocksdb_service.cc:60-87 | a JSON string reader (section 7 of RFC 8259, bytewise) gives back every byte string that was escaped, and stops right after its closing quote |
| Json.EscapedInjective | scripts/rocksdb_service.cc:60-87 | two strings never escape to the same text |
| Json.ReadScanBody | scripts/rocksdb_service.cc:201-213 | an independent reader of a whole `/scan` response gives back exactly the page's records and cursor |
| Fields.SeekCloseQuote | scripts/rocksdb_service.cc:98-99 | the quote loop stops at the first quote without a backslash before it, or reports none |
| Fields.SeekQuoted | scripts/rocksdb_service.cc:97-101 | the next quoted text at or after a position, or none, as both scanners find it |
| Fields.EscapedQuote | scripts/rocksdb_service.cc:60-99 | every quote inside escaped text has a backslash before it |
| Fields.CloseAfterEscaped | scripts/rocksdb_service.cc:98-99 | escaped text is closed by the quote after it exactly when it does not end in a backslash, whatever surrounds it |
| Fields.ExtractField | scripts/rocksdb_service.cc:94-102 | the extractor's search steps compute `Field` for every body and field name |
| Fields.KeyOfRecord | scripts/rocksdb_service.cc:88-102 | the key extracted from a printed record is the escaped key, with two more characters when it ends in a backslash |
| Fields.ValueOfRecord | scripts/rocksdb_service.cc:88-102 | the value extracted from a printed record is the escaped value, or nothing when it ends in a backslash, even when the key spells field names |
| Fields.ExtractorExact | scripts/rocksdb_service.cc:88-102 | extraction inverts printing, up to escaping, if and only if the field does not end in a backslash |
| Fields.NextPair | scripts/rocksdb_service.cc:229-249 | each round of the batch scan moves strictly forward and stays in the body |
| Fields.SeekPair | scripts/rocksdb_service.cc:229-248 | one round of the scan loop finds the pair and the position `NextPair` defines |
| Fields.ScanBatch | scripts/rocksdb_service.cc:226-250 | the loop terminates, collects every pair in order, and gives up exactly when there are more than 1000 |
| Fields.NextPairOfRecord | scripts/rocksdb_service.cc:230-248 | from text before a printed record the scanner cuts out exactly its escaped pair and stops at its brace, if and only if neither string ends in a backslash |
| Fields.BatchExact | scripts/rocksdb_service.cc:226-250 | scanning a printed batch of any length gives exactly its escaped pairs in order, if and only if no string ends in a backslash |
| FieldLayouts.FieldOfText | scripts/rocksdb_service.cc:94-102 | wherever a field's name first stands, with any text around it and any gap before and after the next colon, the extractor gives the escaped text that follows, if and only if it does not end in a backslash |
| FieldLayouts.FieldMissing | scripts/rocksdb_service.cc:94-95 | a field is empty when its quoted name, a colon after it or a quoted text after that is missing |
| FieldLayouts.SpacedExact | scripts/rocksdb_service.cc:94-102 | with white space anywhere between the parts of a record the extractor inverts printing under the same condition |
| FieldLayouts.PairOfText | scripts/rocksdb_service.cc:230-248 | the scanner cuts a pair out of any layout in which no quote stands between its parts, and moves past it |
| Query.Decode | scripts/rocksdb_service.cc:144-148 | the decode loop computes `Decoded`, including `stoi`'s readings of bad hex and its exception |
| Query.DecodeEncoded | scripts/rocksdb_service.cc:144-148 | decoding undoes every percent-encoding (section 2.1 of RFC 3986) of every byte string, also with a plus sign for a space |
| Query.OddEscapes | scripts/rocksdb_service.cc:144-148 | two characters after a percent sign that are not two hex digits are read as `stoi` reads them: a sign or white space before one digit, a digit before anything, or an exception |
| Query.PercentAtEnd | scripts/rocksdb_service.cc:146 | a percent sign among the last two characters stands for itself |
| Query.EncodedIsInert | scripts/rocksdb_service.cc:140-148 | encoded text holds no character with a meaning in a query but the plus sign |
| Query.GetParam | scripts/rocksdb_service.cc:140-143 | the `/get` handler picks out exactly the encoded key that was sent |
| Query.ScanParams | scripts/rocksdb_service.cc:183-197 | the `/scan` handler picks out exactly the cursor and the limit that were sent, or that either was left out |
| Query.LimitOf | scripts/rocksdb_service.cc:188-190 | the limit in force is between 1 and 10000 for every text |
| Query.LimitOfDecimal | scripts/rocksdb_service.cc:188-190 | a decimal limit that fits a long is read as itself, clamped |
| Query.LimitOfText | scripts/rocksdb_service.cc:188-190 | white space, a sign and digits are read as their number and clamped, whatever follows; a number that no long holds, or no number, gives the default |
| Store.GetIsMember | scripts/rocksdb_service.cc:149-152 | a lookup finds exactly the pairs of the ordered map |
| Store.PutIsUpdate | scripts/rocksdb_service.cc:160 | a put keeps the byte order, sets its key and leaves every other key alone |
| Store.PutAllGets | scripts/rocksdb_service.cc:244-251 | after a batch every key it names has the last value the batch gave it |
| Store.PutAllKeeps | scripts/rocksdb_service.cc:244-251 | a batch keeps the byte order and every key it does not name |
| Store.Service.HandleGet | scripts/rocksdb_service.cc:138-154 | the reply for every query: missing key, undecodable key, found, not found |
| Store.Service.HandlePut | scripts/rocksdb_service.cc:156-165 | the reply and the whole new database for every body and mode; a reader refuses and writes nothing |
| Store.Service.HandleBatchPut | scripts/rocksdb_service.cc:223-255 | the reply and the whole new database for every body and mode; more than 1000 pairs write nothing |
| Store.Service.PrintRecords | scripts/rocksdb_service.cc:201-207 | the iterator loop prints the records from its start up to the limit, separated by commas, and knows the last key |
| Store.Service.HandleScan | scripts/rocksdb_service.cc:178-214 | the reply is the printed page after the cursor, with `next` exactly when pairs remain |
| Store.Service.PrintEnding | scripts/rocksdb_service.cc:210-212 | the text ends with the escaped cursor exactly when records remain |
| Requests.GetAnswers | scripts/rocksdb_service.cc:138-154 | a get of any encoding of a key answers with its record if the database has one, and otherwise with 404 |
| Requests.GetRefused | scripts/rocksdb_service.cc:140-148 | a get without a key is refused with 400, one that cannot be decoded with 500 |
| Requests.PutThenGet | scripts/rocksdb_service.cc:138-165 | put then a get with any encoding of the key answers with the record put, if and only if nothing needed escaping (or the key did and the same pair was there before) |
| Requests.PutNeedsKey | scripts/rocksdb_service.cc:158-159 | a put with an empty key is refused and writes nothing |
| Requests.BatchWrites | scripts/rocksdb_service.cc:223-255 | a printed batch of 1 to 1000 pairs without final backslashes is written whole and in order and its size told; an empty or a longer one is refused and writes nothing |
| Requests.BatchThenGet | scripts/rocksdb_service.cc:138-255 | after a printed batch a get of each key answers with the last value it gave it, as sent if key and value are plain, escaped otherwise |
| Requests.BatchKeepsOthers | scripts/rocksdb_service.cc:138-255 | and a get of any other key answers as before |
| Requests.ScanRefused | scripts/rocksdb_service.cc:191-197 | a page request whose cursor cannot be decoded is refused |
| Requests.PagesAscend | scripts/rocksdb_service.cc:190-211 | over any pages with any limits and any changes in between keys come back strictly ascending, as long as no empty cursor goes to a database that holds an empty key |
| Requests.PagesComplete | scripts/rocksdb_service.cc:190-211 | following the cursors to the end returns every key that was present throughout, the empty key included |
| Requests.PagesGenuine | scripts/rocksdb_service.cc:190-211 | every record returned was in the database when its page was read, whatever the cursors |
| Requests.PagesArePrefix | scripts/rocksdb_service.cc:190-211 | on a fixed database, as long as no empty cursor is sent back, what was returned is a prefix, a cursor comes exactly when something remains, and there is at most one page per record |
| Requests.AscendExactly | scripts/rocksdb_service.cc:190-211 | so keys ascend if and only if that is so, whatever changes between the pages |
| Requests.AscendOnFixed | scripts/rocksdb_service.cc:190-211 | on a fixed database they ascend if and only if no cursor sent back was empty |
| Requests.PagesExact | scripts/rocksdb_service.cc:190-211 | following the cursors of a fixed database to the end returns exactly the database, if and only if no empty cursor was sent back |
| Requests.PageOverText | scripts/rocksdb_service.cc:178-214 | through query text, percent-encoding, response text and JSON the client reads exactly the page, also when it leaves out the cursor or the limit |
| Requests.ConversationIsPaging | scripts/rocksdb_service.cc:178-214 | a client that sends back each cursor it read, in any encoding, follows the pages; it is paging in the sense above if and only if no cursor it read was empty |
| Requests.EmptyCursor | scripts/rocksdb_service.cc:199-211 | a page hands out an empty cursor exactly when it is a first page of one record with an empty key and more follow |
| Requests.EmptyCursorRestarts | scripts/rocksdb_service.cc:199-211 | sending an empty cursor back brings the first record of the database again |
| HttpRead.ReadRequest | scripts/rocksdb_service.cc:470-522 | the receive loop terminates, computes `ReadAll`, and its buffer never passes 64 MiB by more than one chunk |
| HttpRead.ChunkingExactly | scripts/rocksdb_service.cc:478-522 | every split of a text with a complete header block assembles the text, if and only if at every moment the headers may first be seen complete the length then announced covers it (section 6.3 of RFC 9112) |
| HttpRead.RefusedExactly | scripts/rocksdb_service.cc:500-515 | every split is refused with 400, or with 413, if and only if at every moment the headers may first be seen complete the length then announced is no number, or is above 64 MiB |
| HttpRead.OversizeRefused | scripts/rocksdb_service.cc:478-482 | a request of more than 64 MiB whose headers announce all of it is refused with 413 under every split |
| HttpRead.HeaderlessText | scripts/rocksdb_service.cc:475-488 | a text without a blank line is kept as it is when the client closes, unless it is above 64 MiB |
| HttpRead.LengthToEnd | scripts/rocksdb_service.cc:495-497 | the length text of a header whose line has not ended yet is all that was read after its name |
| HttpRead.BareHeaders | scripts/rocksdb_service.cc:516-519 | headers that hold no length header in either spelling are the whole request under every split |
| HttpRead.OwnHeader | scripts/rocksdb_service.cc:489-518 | when the first text in the usual spelling, or if there is none the first in lower case, stands among the headers, the announced length does not depend on how much has arrived |
| HttpRead.ChunkingIndependent | scripts/rocksdb_service.cc:478-522 | when the announced length does not depend on what has arrived, every split assembles the request if and only if it is not longer than announced |
| HttpRead.SurplusDependsOnChunking | scripts/rocksdb_service.cc:478-522 | with surplus bytes there are two splits that assemble different requests |
| HttpRead.BodySpellsName | scripts/rocksdb_service.cc:492-519 | a request whose own length header is lower-case and whose body, of less than one chunk, spells the usual name followed by no number is assembled whole by one split and refused by another |
| HttpParse.ParseRequestLine | scripts/rocksdb_service.cc:524-530 | method, path and query come back from a request line, whatever white space stands before, between and after them |
| HttpParse.ParseBody | scripts/rocksdb_service.cc:531-537 | the body is what follows the first blank line, and the token comes from the headers alone |
| HttpParse.ParseWithoutBody | scripts/rocksdb_service.cc:523-536 | a text without a line break is dropped; without a blank line all of it is headers and the body is empty |
| HttpParse.BearerBack | scripts/rocksdb_service.cc:534-555 | the token comes back from the first authorization header in any letter case, with the prefix in any letter case or without one, and with blanks around it |
| HttpParse.NoBearer | scripts/rocksdb_service.cc:538-541 | headers that nowhere spell the authorization header give an empty token |
| HttpRoundTrip.ParseIgnoresBody | scripts/rocksdb_service.cc:523-556 | method, path, query and token depend on the headers alone, whatever headers there are and whatever the body holds |
| HttpRoundTrip.AnySplitAnyHeaders | scripts/rocksdb_service.cc:470-557 | for every header block that announces its body, every body and every split, the handler sees the parts that the headers alone give, and the body that was sent |
| HttpRoundTrip.ParsePrinted | scripts/rocksdb_service.cc:523-556 | a request printed with a length and an authorization header, in this order, and any body parses back to its five parts |
| HttpRoundTrip.AnySplitParsesBack | scripts/rocksdb_service.cc:470-557 | such a printed request comes back as its five parts however the network cuts it |
| HttpRoundTrip.AnyLengthText | scripts/rocksdb_service.cc:492-519 | a request with any length text, blanks around it included, is refused with 400 if that is no number, with 413 if it is above 64 MiB, and otherwise assembled if it covers the body, under every split |
| HttpRoundTrip.AnySplitBare | scripts/rocksdb_service.cc:470-557 | a request without a length header, whatever other headers it has, comes back as its parts with an empty body under every split |
| HttpRoundTrip.GetWithToken | scripts/rocksdb_service.cc:470-557 | so does a request line with an authorization header alone, with its token |
| HttpRoundTrip.GetWithoutToken | scripts/rocksdb_service.cc:470-557 | and one without an authorization header, with an empty token |
| HttpRoundTrip.LowerCaseMisread | scripts/rocksdb_service.cc:492-508 | a concrete request with a correct lower-case length header that is read whole or refused depending on how it arrives |
| HttpReply.ResponseBack | scripts/rocksdb_service.cc:105-110 | a client reads the body of every response back; it reads the status back if and only if it is 200, 403, 404 or 500 |
| ConfText.Lookup | scripts/cluster_watcher.sh:37-42 | the lookup program on any text: the first nodeid field at or after the address line |
| ConfText.Insert | scripts/cluster_watcher.sh:582-589 | the insert program on any text, with its two flags |
| ConfText.Prune | scripts/cluster_watcher.sh:489-498 | the prune program on any text, with its buffer and flags |
| ConfEdits.LookupIsIdOf | scripts/cluster_watcher.sh:35-42 | on a well-formed text, with the two settings of each block in either order, the lookup gives the address's own id, compared whole, and nothing for an address not listed, if and only if the first block of the address does not name its id first with another id or none following |
| ConfEdits.LookupIsNextId | scripts/cluster_watcher.sh:35-42 | on every well-formed text the lookup gives the first id at or after the line of the address, in its own block or the next |
| ConfEdits.InsertIsAppend | scripts/cluster_watcher.sh:582-591 | insert appends exactly one pair to the node list and keeps every other line in order |
| ConfEdits.NewEntryNames | scripts/cluster_watcher.sh:584 | the inserted block names its node by the address |
| ConfEdits.InsertedWellFormed | scripts/cluster_watcher.sh:582-591 | the text stays well formed, so the programs can run on it again |
| ConfEdits.PruneIsWithout | scripts/cluster_watcher.sh:488-498 | prune deletes exactly the blocks of the address and keeps every other line in order |
| ConfEdits.PruneLosesOpen | scripts/cluster_watcher.sh:489-498 | a block that the next one interrupts, or that the text does not close, is lost whatever its address |
| ConfEdits.InsertThenPrune | scripts/cluster_watcher.sh:489-591 | inserting a fresh address and pruning it gives the text back up to one blank line |
| ConfEdits.GrepReadsNodes | scripts/cluster_watcher.sh:57 | the grep pipelines read exactly the addresses and the ids of the node list, in order |
| Membership.FreeIdIsLeast | scripts/cluster_watcher.sh:570-578 | the id-skipping loop stops at the least id from the counter on that the configuration does not use |
| Membership.EventKeeps | scripts/cluster_watcher.sh:44-63 | every event keeps addresses and ids distinct, the counter above all ids, both lists in agreement, and never gives an old id a new address |
| Membership.RunKeeps | scripts/cluster_watcher.sh:44-63 | so does every run, between any two of its moments |
| Membership.IdsNeverReused | scripts/cluster_watcher.sh:542-592 | at any two moments of a run an id stands for the same address, in the configuration or in the runtime list |
| Membership.CounterAboveAll | scripts/cluster_watcher.sh:44-63 | the counter never falls and stays above every id ever in use |
| Membership.WriterStays | scripts/cluster_watcher.sh:263-484 | the writer's own entry is there at every moment of every run |
| Membership.FreshStart | scripts/setup_cluster.sh:161-162 | a freshly set up cluster with its counter above the node count meets the invariant |
| IdReuse.NextJoinClashes | scripts/cluster_watcher.sh:540-592 | from any state whose lists are sound, the next join makes an id stand for two addresses if and only if the raised counter is an id that corosync still binds to another address |
| IdReuse.SpentNeverReused | scripts/cluster_watcher.sh:540-592 | when every id in use is below what joins can get, no run in which joins follow a sync reuses an id |
| IdReuse.UnspentIsReused | scripts/cluster_watcher.sh:53-63 | otherwise there is such a run, built from departures and joins alone |
| IdReuse.ReuseExactly | scripts/cluster_watcher.sh:53-63 | from any sound state some run reuses an id, if and only if some id in the configuration or the runtime list is at least the counter and above the writer's own id |
| IdReuse.StaleCounterReuses | scripts/cluster_watcher.sh:44-46 | a concrete instance: the counter file is lost after the second node was removed, and the next join reuses its id |
| Membership.PinRestoresQuorum | scripts/cluster_watcher.sh:668-688 | setting the expected votes to the votes present makes the ring quorate, whatever left and whatever the configuration still lists |
| Membership.ReloadLosesQuorum | scripts/cluster_watcher.sh:375-385 | without a pin, a reload that raises the votes loses quorum exactly when the configuration has at least twice the ring |
| Watcher.Cluster.constructor | scripts/cluster_watcher.sh:690-692 | any well-formed text whose blocks name the address before the id, and any state that meets the invariant, is a valid start |
| Watcher.Cluster.ConfAddresses | scripts/cluster_watcher.sh:258-259 | the grep pipeline lists the addresses of the node list, in order |
| Watcher.Cluster.ReloadCorosync | scripts/cluster_watcher.sh:543-546 | a reload is the event of that name: no known id is rebound or dropped |
| Watcher.Cluster.PinExpectedVotes | scripts/cluster_watcher.sh:675-688 | the ring is quorate right after a pin |
| Watcher.Cluster.SetLiveVotes | scripts/cluster_watcher.sh:382-385 | after the last step of a cleanup the expected votes are the members of the ring, which is then quorate, or one without members |
| Watcher.Cluster.RemoveFromConf | scripts/cluster_watcher.sh:334-335 | the text edit removes the address from the node list and nothing else |
| Watcher.Cluster.KillFromRing | scripts/cluster_watcher.sh:300-307 | the id killed is the one the configuration gives that departed address |
| Watcher.Cluster.RingChanges | scripts/cluster_watcher.sh:375-381 | members may leave or join the ring by themselves at any point of a history |
| Watcher.LargestId | scripts/cluster_watcher.sh:54-57 | the loop over the ids finds the largest, at least 1 |
| Watcher.Cluster.SyncNodeidCounter | scripts/cluster_watcher.sh:53-63 | afterwards the counter is the old one or the largest id in the configuration text plus one, whichever is larger |
| Watcher.Cluster.PickId | scripts/cluster_watcher.sh:570-578 | the loop terminates with the least free id and leaves the counter one above it |
| Watcher.Cluster.AddToConf | scripts/cluster_watcher.sh:569-592 | the text gains one entry under a fresh id not below the old counter |
| Watcher.Cluster.PruneOne | scripts/cluster_watcher.sh:482-506 | one address's blocks are pruned, and the result is kept exactly when the address was listed |
| Watcher.Cluster.PruneDeadConfNodes | scripts/cluster_watcher.sh:478-513 | what is left is the writer and the running nodes, in order; if anything was pruned, and only then, the configuration is loaded and the ring is quorate |
| Watcher.Cluster.ListDeparted | scripts/cluster_watcher.sh:263-274 | the list holds exactly the configured addresses that are not the writer's, not live and not running |
| Watcher.Cluster.RemoveOffline | scripts/cluster_watcher.sh:318-358 | exactly the departed, offline, removable addresses leave the configuration, each while the expected votes are those of the ring; if any was offline the rest is loaded |
| Watcher.Cluster.CleanupOfflineNodes | scripts/cluster_watcher.sh:254-386 | the exact new node list and the exact new ring: an id is thrown out if and only if the configuration gives it to a departed address that can be killed; every removal happens while the votes are pinned; the ring is quorate if anything had departed; otherwise nothing changes |
| Watcher.Cluster.KillDeparted | scripts/cluster_watcher.sh:298-310 | the loop throws out exactly the ids that the configuration gives the killable ones of its list |
| Watcher.Cluster.RecoverOfflineAsgNodes | scripts/cluster_watcher.sh:415-445 | exactly the departed addresses that corosync has forgotten leave the configuration, and none when the live list is empty |
| Watcher.Cluster.AddOne | scripts/cluster_watcher.sh:547-617 | the address is listed and loaded afterwards; if it was listed already the configuration is unchanged, otherwise it gains one entry under a fresh id |
| Watcher.Cluster.AddNewNodes | scripts/cluster_watcher.sh:516-651 | every authorized pending address ends up listed and loaded, every new entry is one of them under a fresh id, no running node or writer is lost, the counter is raised before any node joins, and the expected votes are those before or those of a pin, unless the reload of a join raises them, however the ring changes before each join |
| Watcher.Cluster.JoinEach | scripts/cluster_watcher.sh:542-640 | the loop alone: nothing leaves the configuration, only wanted addresses enter and all of them are there at the end, and the expected votes change only by a raising reload |
| Watcher.MainLoop.SeesStale | scripts/cluster_watcher.sh:714-721 | a pass sees a stale entry exactly when some configured node besides the writer is not live |
| Watcher.MainLoop.constructor | scripts/cluster_watcher.sh:691 | the loop starts with no stale time, on a cluster without history |
| Watcher.MainLoop.TidyUp | scripts/cluster_watcher.sh:693-710 | the first half of a pass pins the ring it finds, loses no running node and no writer, throws exactly the killable departed ids out of the ring, removes exactly the departed nodes that could be removed and are offline or forgotten, and leaves the expected votes that its last pin gave the ring there was, although the ring changes in between |
| Watcher.MainLoop.PinRing | scripts/cluster_watcher.sh:692-696 | a pass opens by pinning the expected votes to the ring it finds, which can change again before the cleanup |
| Watcher.MainLoop.Work | scripts/cluster_watcher.sh:692-748 | one pass loses no running node and no writer, decides every removal and kill on its own EC2 answer, cleans ring and configuration up exactly before it calls add_new_nodes exactly when the gate says so, and its expected votes at the end are given |
| Watcher.MainLoop.Pass | scripts/cluster_watcher.sh:692-748 | the same, recorded as one more pass of the history, so that all passes together account for every event and for the stale time; although the ring changes by itself during the pass, it ends quorate if and only if its members are more than half of the votes last pinned and no join reloaded a configuration of at least twice its size that raised the votes |
| Watcher.MainLoop.RemovalSafe | scripts/cluster_watcher.sh:263-346 | over any history of passes, an entry that disappears between two moments was removed by a pass in between whose EC2 answer did not list its address as running; it is never the writer's |
| Watcher.MainLoop.KillSafe | scripts/cluster_watcher.sh:300-307 | every id thrown out of the ring belonged in the configuration, at that moment, to an address other than the writer's that the EC2 answer of that pass did not list as running |
| Watcher.MainLoop.KillsExactly | scripts/cluster_watcher.sh:298-310 | and over any history of passes none is missed: after the cleanup of each pass the ring is the one before it without the ids of the departed addresses that could be killed |
| Watcher.MainLoop.RemovesExactly | scripts/cluster_watcher.sh:263-445 | and the same for the configuration: cleanup and recovery of a pass leave an entry exactly if its node is the writer, live or running, could not be removed, or is neither offline nor unknown to corosync while anyone is live |
| Watcher.MainLoop.IdsStay | scripts/cluster_watcher.sh:542-592 | over any history of passes an id always stands for the same address |
| Watcher.MainLoop.JoinersWait | scripts/cluster_watcher.sh:691-748 | over any history of passes, while some node keeps asking to join, attempts are less than 120 s and two pass gaps apart |
| JoinGate.Gate | scripts/cluster_watcher.sh:716-746 | the gate of one pass |
| JoinGate.AttemptExactly | scripts/cluster_watcher.sh:722-746 | a stale pass attempts exactly when a joiner is pending and 120 s have passed since the first stale pass after the last clean one |
| JoinGate.NeverStarved | scripts/cluster_watcher.sh:14-18 | no 120 s with a pending joiner go by without an attempt |
| JoinGate.WaitBetweenAttempts | scripts/cluster_watcher.sh:691-748 | a persistent joiner waits less than 120 s plus two pass gaps between attempts |
| Watchdog.Reaper.Reap | scripts/cluster_watcher.sh:119-156 | one pass: the new marker of every address and exactly the instances terminated, each seen stuck by every pass for at least 360 s; the markers are always those that the history of passes makes |
| Watchdog.Reaper.LookAtEach | scripts/cluster_watcher.sh:128-149 | the loop gives each address its new marker once, leaves the others alone, and terminates exactly those whose time is up |
| Watchdog.Reaper.DropUnseen | scripts/cluster_watcher.sh:150-155 | exactly the markers of addresses not seen in the pass are deleted |
| Watchdog.MarkerHistory | scripts/cluster_watcher.sh:131-148 | a marker holds the time of a pass since which every pass saw the address stuck |
| Watchdog.TerminatedWasStuck | scripts/cluster_watcher.sh:141-148 | a terminate request is issued only for an address that every pass for at least 360 s saw tagged, running and not online |
| Watchdog.StuckIsTerminated | scripts/cluster_watcher.sh:137-148 | an address always seen so is terminated exactly by the first pass at least 360 s after its marker was made |
| Watchdog.TerminationsApart | scripts/cluster_watcher.sh:141-148 | two terminate requests for one address are at least 360 s apart |
| Election.Elect | rocksdb_stack.py:225-256 | the nested tests elect exactly when there is no auth key, or neither the recorded writer nor any tagged one runs, where a lookup that fails reads as none; failed lookups only ever add a win |
| Election.StepKeeps | scripts/promote_reader.sh:73-151 | every step that operations allow keeps the invariant of each phase of a promotion, whichever lookups, requests and writes fail |
| Election.SingleWriter | scripts/promote_reader.sh:73-151 | in every careful run at most one running node has readwrite as env mode or service mode, whichever lookups, requests and writes fail |
| Election.KnownAfter | scripts/promote_reader.sh:148-151 | after a promotion that leaves no other node hot, SSM or the tags tell who the writer is, if and only if one of the final writes went through in a way that names it |
| Election.WrittenSingleWriter | scripts/promote_reader.sh:73-151 | a run in which nothing is lost, no boot wins before the target is recorded and no wait is given up while the old writer runs keeps one writer |
| Election.OrderlySingleWriter | scripts/promote_reader.sh:73-151 | so does every run whose promotions start from a live recorded writer that is not terminated meanwhile and whose demotion arrives and is waited for, with boots anywhere, if nothing is lost; or, with anything lost, if each promotion demotes the recorded writer and ends with its target named, and no boot wins by a failed lookup or without storing the auth key |
| Election.BootMidPromotionReads | rocksdb_stack.py:225-256 | in both kinds of run every boot between two promotion steps elects a reader |
| Election.PromotedServes | scripts/rocksdb_service.cc:326-333 | once the promote request was served, the next restart of the target leaves its service in readwrite mode, whatever else happens until then, unless the target stops or another promotion finds it; under rules that suffice it is the only one |
| Election.LateRequestPromotes | scripts/rocksdb_service.cc:317-334 | a request that a running target serves only after the final writes makes it a writer all the same, records it, and after its restart it serves |
| Election.NextPromotion | scripts/promote_reader.sh:73-93 | whatever was lost before, a promotion whose demotion arrives and is carried out ends in two writers if and only if the writer there is, unless it is the target, is not the node that the tag search found |
| Election.PatienceExactly | scripts/promote_reader.sh:73-151 | from any idle fleet with its auth key stored, whatever was lost before, some run that loses nothing, waits for demotions and has no boot win before its target is recorded leads to two writers, if and only if the tag search finds more than one node or does not find the writer |
| Election.PatienceWithWriter | scripts/promote_reader.sh:73-76 | with one writer that is: if and only if the tag search does not find it alone |
| Election.CareExactly | scripts/promote_reader.sh:92-151 | from any such fleet some careful run, with anything lost, leads to two writers if and only if neither SSM nor the tags alone name the writer |
| Election.LostRetagReached | scripts/promote_reader.sh:92-93 | a run that keeps the everyday rules and ends in two writers because one retag was lost |
| Election.LostRecordReached | scripts/promote_reader.sh:148-151 | and one in which both SSM writes and the final tag were lost |
| Election.BootBeforeRecord | scripts/rocksdb_service.cc:317-330 | a boot at any time between the demotion and the serving of the promote request, also after the end of the script, once the old writer is not hot, ends in two writers if and only if neither the recorded writer nor a tagged one runs, or the lookups that would tell fail |
| Election.BootBeforeRecordReached | scripts/rocksdb_service.cc:317-330 | a run of possible steps, without a timeout, in which such a boot leads to two writers |
| Election.PromoteAfterTimeout | scripts/promote_reader.sh:84-93 | going on after the wait ran out ends in two writers exactly when the old writer is still in readwrite mode |
| Election.PromoteAfterTimeoutReached | scripts/promote_reader.sh:84-93 | a run of possible steps, without a boot during the promotion, in which a timeout leads to two writers |
| Election.Deployment.constructor | rocksdb_stack.py:225-256 | before the first boot nothing has happened |
| Election.Deployment.OneWriter | scripts/promote_reader.sh:73-151 | at every moment of the history kept by the deployment there is at most one writer, when the history so far is careful, or patient without losses, or kept the everyday rules in either form |
| Election.Deployment.BootInstance | rocksdb_stack.py:225-335 | the outcome of the election by what its lookups told; exactly its winner becomes hot, serves as writer with a readwrite env file and is tagged, any other node boots as a reader and no other node changes; the next boot with its lookups answered wins if and only if no auth key was or is stored |
| Election.Deployment.TerminateInstance | rocksdb_stack.py:240-247 | exactly the terminated node stops being a writer |
| Election.Deployment.RestartService | scripts/rocksdb_service.cc:331-333 | the service takes over the mode of its env file, which completes a promotion or a demotion; nothing else changes, and no new writer is made |
| Election.Deployment.Meanwhile | scripts/promote_reader.sh:84-91 | between two steps of the script exactly the given boots, terminations and restarts happen, in their order, whenever they can; env modes, tags and progress stay |
| Election.Deployment.StartPromotion | scripts/promote_reader.sh:74-82 | no one becomes a writer by it; exactly a node that gets the demotion changes its env mode, and is then one restart away from being a reader |
| Election.Deployment.AwaitReadonly | scripts/promote_reader.sh:83-91 | when the wait ends by an answered poll that says `readonly`, the old writer is a running reader at that moment; when it runs out, at none of its thirty polls that was answered; the history is that of the polls made, whatever can happen during them, and the end of the wait |
| Election.Deployment.RetagOld | scripts/promote_reader.sh:92-93 | exactly the demoted node loses the writer tag, if the write goes through; no mode changes |
| Election.Deployment.RecordTarget | scripts/rocksdb_service.cc:317-325 | in time or after the end of the script: if the request reaches a running target and the write goes through, no boot with its lookups answered wins from here on while the target runs; otherwise the election is as before; no mode changes |
| Election.Deployment.SwitchTarget | scripts/rocksdb_service.cc:326-327 | exactly the target becomes a writer, if it got the request and runs: its env mode is readwrite, and no service has changed yet |
| Election.Deployment.FinishPromotion | scripts/promote_reader.sh:148-151 | while the target runs each write that goes through has its effect, and either keeps boots from winning; if the target is a writer, or the request still under way may make it one, SSM or the tags name it afterwards exactly when the promotion ends with its target named; no mode changes |
| Election.Deployment.SettleDemotion | scripts/promote_reader.sh:83-93 | once a demotion was sent, the wait, its end and the retag follow in this order with everything that can happen in between; the wait ends early only on an answered poll, and the demoted node is tagged as a reader unless that write was lost |
| Election.Deployment.DemoteOld | scripts/promote_reader.sh:73-104 | after the demotion half the old writer is tagged as a reader unless that write was lost, and the history is the demotion, the wait, its end and the retag in this order, with everything that can happen in between |
| Election.Deployment.PromoteTarget | scripts/promote_reader.sh:117-151 | after the promotion half, with the request served before, around or after the final writes, a running target is the tagged and recorded writer as far as the final writes went through, and no boot wins if either did; the history is the steps of this half in their order, with everything that can happen in between |
| Election.Deployment.ServeLateRequest | scripts/rocksdb_service.cc:317-334 | a request served after the end of the script names the target if it still has to, switches it and so ends the promotion, with everything that can happen in between; it changes no tag and leaves at most one writer when operations kept to rules that suffice |
| Election.Deployment.PromoteReader | scripts/promote_reader.sh:73-151 | the whole script: its history is its steps in their order with everything that can happen in between; any of its lookups, requests and writes can be lost and its request served in time or not; what went through has its effect, and at its end there is at most one writer when operations kept to rules that suffice |
| FillRandom.WordInjective | stress-test/sst_generator.cc:111 | distinct keys are distinct 64-bit seeds |
| FillRandom.KeyBytes | stress-test/sst_generator.cc:111 | byte i of the seed word is byte i of the key number |
| FillRandom.SeedingInverts | stress-test/sst_generator.cc:111 | the seeding step has an explicit inverse: its multiplier is invertible modulo 2^64 |
| FillRandom.StepInverts | stress-test/sst_generator.cc:113 | the three-shift xorshift step is a bijection with an explicit inverse |
| FillRandom.StatesBack | stress-test/sst_generator.cc:111-113 | undoing a step leads from each state of a key to the one before it, and back to the key |
| FillRandom.TopBack | stress-test/sst_generator.cc:114 | a state is the byte it yields followed by 56 bits more |
| FillRandom.Fill | stress-test/sst_generator.cc:110-116 | the buffer, rewritten in place, holds the top byte of every successive state |
| FillRandom.DistinctStates | stress-test/sst_generator.cc:110-116 | distinct keys are in distinct states at every byte position |
| FillRandom.NeverDead | stress-test/sst_generator.cc:107-116 | no key that a signed 64-bit counter reaches ever gets into the all-zero state |
| DecimalOrder.PaddedOrder | stress-test/sst_generator.cc:160 | within the padding width, byte order is numeric order |
| DecimalOrder.LabelsAscendExactly | stress-test/sst_generator.cc:152-160 | padded labels of 0..n-1 ascend bytewise if and only if they fit the width |
| DecimalOrder.LabelText | stress-test/sst_generator.cc:152-160 | a label is its start, the digits of its number padded to the width, and its end |
| DecimalOrder.LabelInjective | stress-test/sst_generator.cc:152-160 | different numbers have different labels, whatever their widths |
| SstGen.FitsHalf | stress-test/sst_generator.cc:148-149 | the loop variable never leaves the range of a long long for up to 2^62 keys, whatever the file size |
| SstGen.WriteRecords | stress-test/sst_generator.cc:158-164 | one file gets the records of its key range in order |
| SstGen.Generate | stress-test/sst_generator.cc:142-178 | without integer overflow, the files are the shares of the range in order and every key is counted |
| SstGen.Partition | stress-test/sst_generator.cc:148-178 | the files hold keys 0..n-1, each once, in order, in ceil(n / per) files, none empty and none over-full |
| SstGen.RecordOfKey | stress-test/sst_generator.cc:110-178 | the record of key k stands in file k / per at place k % per, under the text of its number, and byte i of its value is the top byte of its state after i + 1 steps |
| SstGen.PathText | stress-test/sst_generator.cc:152 | the path of file i is the directory, the fixed name, i in at least six digits and the ending |
| SstGen.AscendingExactly | stress-test/sst_generator.cc:148-178 | keys ascend strictly bytewise within and across files if and only if there are at most 10^16 |
| SstGen.SortRestores | stress-test/sst_generator.cc:75 | sorting the listed paths restores the order of generation if and only if there are at most 10^6 files |
| SstGen.Ingest | stress-test/sst_generator.cc:188-205 | exactly the batches before the first refusal are loaded, and nothing after it is attempted |
| SstGen.BatchesCover | stress-test/sst_generator.cc:192-198 | the batches cover the file list in order, each file once, at most ten at a time |
| SstGen.LoadedIsPrefix | stress-test/sst_generator.cc:148-205 | however far an ingest gets, the database received exactly a prefix of the key range |

## Left out

- AWS, pcs, SSM, corosync, DLM and GFS2 themselves: their answers are parameters and their effects state updates.
- RocksDB internals, failing database calls, and how fresh a secondary is: library code.
- The "db not ready" replies: the service opens its database before it accepts connections.
- Store.Service.HandlePut: does not model a database that is closed while serving, as `/admin/resetdb` can leave it.
- `/delete`, `/flush`, the health check and the other `/admin` and `/cluster` requests: single-branch handlers.
- Json.ReadScanBody: does not pair UTF-16 surrogates, because the escaper never writes a `\u` escape above U+001F.
- ConfText.Lookup: does not model a text without line structure; a file is its sequence of lines.
- ConfEdits.GrepReadsNodes: takes one id per line by its second field, which is what `grep -oP` prints for the lines of a node block.
- Watcher.Cluster.RemoveFromConf: does not model how `pcs cluster node remove` works inside, only that it deletes the address's blocks.
- Watcher.Cluster.AddNewNodes: does not model the wait for the node to appear in the ring, tag deletion, journals and the fence map.
- Watcher.MainLoop.Pass: the ring changes by itself before each function of a pass and before each join, not inside one cleanup; `Watcher.Cluster.RingChanges` and the theorems of `Membership` allow it at any moment.
- IdReuse.ReuseExactly: speaks of runs in which nodes are added only while the counter is above the configuration, which `add_new_nodes` sees to.
- Watchdog.Reaper.Reap: passes made while the shared mount is missing do nothing and are not kept in its history; does not model two running instances with one private address, which EC2 excludes.
- Two watchers at once, cluster rebuild and `/admin/bootstrap`: they start a new epoch of ids.
- `sync_runtime_nodelist`, which nothing calls, the CIB purge, fence acknowledgements and the recovery restarts: calls into pacemaker without effect on the modelled state.
- That no two ring partitions are quorate at once: pinning makes even a lone writer quorate, and fencing is relied on instead.
- Promotion through `tui.py`: it goes on after a timeout and may roll back.
- Election.Deployment.FinishPromotion: the script's SSM path names `rocksdb-cluster` whatever the cluster is called; for another name its final SSM write counts as lost.
- Election.Deployment.BootInstance: does not model boots that overlap, in which two first instances can both find no auth key, nor a winner whose tag write fails, which ends its boot script.
- SstGen.Generate: does not model I/O errors of the file writer, and paths are not cut at 512 characters.
- SstGen.SortRestores: does not model foreign `.sst` files in the directory.
- The terminal UI, metrics, the rest of the CDK stack, image builds, teardown and test scripts: I/O and configuration.
