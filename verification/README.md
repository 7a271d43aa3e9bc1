# Squawk: SSDP discovery and ContentDirectory Browse

Squawk is a UPnP media server. This project models its two state machines and proves what
they promise.

**Discovery** (`src/ssdpserver.cpp`, `src/ssdpserverconnection.cpp`, `src/ssdpserver.h`,
`create_header` in `src/_utils.h`, the lease clock of `src/device.h`). The server says
`ssdp:alive` and `ssdp:byebye` in bursts, repeats itself from a background thread, and answers
searches from a receive loop. The rules are sections 1.1.2, 1.1.3, 1.2.2 and 1.2.3 of the UPnP
Device Architecture 1.0.

- `Headers`, `Lease` and `Ssdp` hold the messages: the text codec with an independent reader, the
  lease text and the lease clock of a receiver, and the server object with its bursts and its
  answers.
- `Discovery` is the timed machine. A `Step` is one atomic action of the caller, of the
  announcing thread, of the receive loop, or of the clock; a `Run` is any sequence of possible
  steps, so a statement about `Run` covers every interleaving. The trace and the record of one
  lossy control point are part of the state.
- `Tightness` builds the runs that show the bound on missed bursts cannot be raised.
- `Convergence` ties the signals of that machine to the messages of the server object and follows
  the table of a control point that hears everything.
- `ReceiveLoop` is the one-shot receive with its shared `sender_endpoint`, over any handler; its
  connection object carries its own history as a run of the loop.

**Browse** (`src/datastore.h`, `src/server.cpp`, `src/didl.cpp`, `src/device.h`, tree helpers of
`src/_utils.h`; section 2.7.4 of ContentDirectory:1). A catalogue of nodes and lists is written
into Redis under keys joined with `:`, and Browse reads windows of it into a DIDL-Lite document.

- `Keys`, `Redis`, `Datastore`, `Catalogue`: key families, the commands used, the store
  operations, and the abstract catalogue that the string-keyed store refines.
- `Didl`, `Written`, `Browse`, `Paging`, `Navigation`, `Albums`: the document, its objects
  written out, the handler, and three clients: one that pages, one that climbs to the root, and one that pages through an album after
  any history of store operations.
- `Description`, `Soap`: the description tree and its reader, and the two SOAP envelopes.
- `Text` and `StdMap` hold what the others share: decimal numerals, trimming, and the ascending
  key order in which `std::map` is visited.

A function that answers a request (`React`, `BrowseReply`, `Exec`) is the specification of the
method beside it; the lemmas are about the function, and the method's contract ties the code with
its loops and assignments to it. Browse and its clients take the reading of a node as an argument
(`Reader`). `Browse.Server` reads with `Reads(db)`, and `Browse.WholeExact` says what the
hypotheses about a reader mean for stored hashes.

Members whose names end in `Texts` or `Exact` state what a specification function means without
naming it or its constants: message lines, keys, flags and attributes appear there as texts.

## Where the code departs from what it promises

The code is kept as it is; each case has its exact condition or a run that shows it.

- RequestedCount 0 means "all". It becomes -1, so the stop index is `index - 2`: the reply shows
  the rest of the list exactly when no entry left out has a class, which for a list whose entries
  all have one means that the index is 1, or at or past the end (`Datastore.BrowseAllExact`,
  `Paging.BrowseAllReply`).
- BrowseMetadata reports 1 of 1 even when nothing was written, and counts the children of the id
  as requested rather than of the id it looked up (`Browse.MetadataAccounting`).
- TotalMatches of an album counts its child list, while the pages come from its audio files. The
  two agree exactly when as many files have a class as the child list has entries; with more,
  NumberReturned exceeds TotalMatches (`Albums.AlbumHistory`, `Browse.BrowseAccounting`).
- An entry without a class is skipped, so a page can be short before the list ends. A client that
  stops there has everything exactly when no later entry has a class (`Paging.StoppingExact`).
- One node that makes `write` throw costs the whole page: a page is answered exactly when every
  node in it that has a class has the fields `write` needs (`Paging.PageExact`). The document then
  holds a half-built element the counter ignores (`Didl.Document.Write`).
- `rem_types` removes the hash of the key that `add_types` stored unhashed. It undoes it exactly
  when hashing leaves the key alone (`Catalogue.RemTypesUndoesAddTypes`).
- The receive loop still runs while the destructor says goodbye, so ordering is claimed for NOTIFY
  only. The last message of a server can be a search answer, after all byebyes, exactly when its
  uuid is not empty and something is registered (`Convergence.AnswerAfterByebye`).
- After one failed receive the callback arms no other, so the server never answers a search again:
  the loop has a step left exactly as long as no receive failed and the handler met no assertion
  (`ReceiveLoop.ListensExactly`).
- Where `ssdp:all` is itself registered beside other namespaces, a targeted search for it is taken
  for the search for all, and the targeted answers no longer add up to the answer for all
  (`Ssdp.SearchComplete`).
- A search answer that lost its USN to a line break in a value, read back by its own server, gets no
  reply but can run into the assertion on the request method (`Ssdp.NoSelfFeeding`).
- A server with an empty uuid takes every message for its own (`Ssdp.EmptyUuidAnswersNobody`).
- The lease clock counts in an `unsigned int`. A device that has been silent for its lease passes
  for alive exactly when its silence modulo 2^32 seconds lies below the lease
  (`Lease.TimedOutExact`, `Lease.PassesForAliveExactly`).
- The parents "" and "0" do not survive the way through `parentID` (`Navigation.ParentRoundTrip`).
- The year of a node is shown twice, as `dc:data` and as `dc:date` (`Didl.DetailsShown`).

## Model

| member | source | states |
|---|---|---|
| Headers.CreateHeader | src/_utils.h:114-124 | The stream loop produces the request line, one line for each header in key order, and the empty line. |
| Headers.MessageTexts | src/_utils.h:114-124 | That text written out: CR LF behind the line, for each header its name, a colon, a space, its value and CR LF, the smallest name first, and CR LF at the end. |
| Headers.MessageRoundTrip | src/_utils.h:114-124 | A reader that follows section 3.2 of RFC 7230 finds in that text exactly the line and the map, if and only if no value has a blank around it; for every line and map without line breaks and without colons in names. |
| Text.TrimTexts | src/_utils.h:118-120 | The blanks the reader takes off a value are the spaces and tabs around it, and nothing else. |
| Headers.MessageInjective | src/_utils.h:114-124 | On that domain two different messages never share a text. |
| Lease.LeaseTextRoundTrip | src/ssdpserver.h:58-66 | Every text that is max-age=n with spaces put in anywhere is read as n when n fits a time_t, and refused otherwise. |
| Lease.SpaceIgnored | src/ssdpserver.h:60 | A space at any place of any text changes nothing. |
| Lease.LeaseFormatExact | src/ssdpserver.h:61-64 | The format assertion fails exactly for texts that, without their spaces, do not begin with max-age=. |
| Text.DecimalExact | src/ssdpserver.cpp:183-198 | Numerals are written digit by digit to base ten. |
| Text.DigitsValueExact | src/ssdpserver.h:62 | And read digit by digit to base ten. |
| Lease.LeaseTextExact | src/ssdpserver.h:58-66 | A text is read as n, negative n included, exactly when it is max-age= with an optional sign and digits of that value, with spaces put in anywhere. |
| Lease.SentLeaseDecodes | src/ssdpserver.cpp:183-198 | The lease text of both builders is read back as ANNOUNCE_INTERVAL. |
| Lease.TimedOutExact | src/device.h:334-339 | At every age and for every lease a record is timed out exactly when its age modulo 2^32 seconds reaches the lease. |
| Lease.PassesForAliveExactly | src/device.h:334-339 | A device silent for its lease passes for alive exactly when the silence modulo 2^32 seconds lies below the lease; below the wrap the clock is the plain comparison. |
| Lease.SilentForeverIsAliveAgain | src/device.h:334-339 | At 2^32 seconds of silence the record counts as fresh again. |
| Ssdp.SsdpServer.constructor | src/ssdpserver.cpp:49-54 | Registering the given namespaces one by one leaves exactly that map, and nothing is sent. |
| Ssdp.SsdpServer.RegisterNamespace | src/ssdpserver.h:42-44 | One entry of the registry is set, the others stay. |
| Ssdp.SsdpServer.SendAnnounce | src/ssdpserver.cpp:194-209 | Appends one alive message for the namespace to what was multicast. |
| Ssdp.SsdpServer.SendSuppress | src/ssdpserver.cpp:210-223 | Appends one byebye message for the namespace. |
| Ssdp.SsdpServer.Suppress | src/ssdpserver.cpp:156-162 | Appends three rounds of byebye over all namespaces in order. |
| Ssdp.SsdpServer.Announce | src/ssdpserver.cpp:147-155 | Appends the byebye burst and then the alive burst. |
| Ssdp.SsdpServer.ReannounceIfDue | src/ssdpserver.cpp:230-241 | Sends one alive burst and moves the stamp exactly when 60 counted seconds have passed, else nothing changes. |
| Ssdp.SsdpServer.CreateResponse | src/ssdpserver.cpp:180-193 | The header map filled by assignment is the answer's header map. |
| Ssdp.SsdpServer.HandleReceive | src/ssdpserver.cpp:86-120 | Appends to the answers exactly what the request is owed, and fails exactly where the assertion does. |
| Ssdp.SearchTexts | src/ssdpserver.cpp:86-120 | By the texts: a foreign M-SEARCH for ssdp:all gets the answer for every namespace in order, one for a registered target gets its answer, each with the line HTTP/1.1 200 OK and every header written out; the rest gets nothing, and a verb other than M-SEARCH and NOTIFY meets the assertion. |
| Ssdp.MessagesAreTexts | src/ssdpserver.cpp:180-223 | The request line and every header of the answer, the alive and the byebye, written out. |
| Ssdp.BurstTexts | src/ssdpserver.cpp:147-162 | A burst is one message for each namespace in order, and that three times. |
| Ssdp.KeysInOrder | src/ssdpserver.cpp:93-151 | The namespaces are visited in the order of their texts, each once. |
| Ssdp.AdvertisedLease | src/ssdpserver.cpp:180-209 | The lease text in an alive message and in an answer, with spaces put in anywhere, decodes to 1800 seconds; a byebye carries none. |
| Ssdp.UsnInjective | src/ssdpserver.cpp:187-202 | One server gives two namespaces two USNs. |
| Ssdp.AllResponsesExact | src/ssdpserver.cpp:90-96 | The answers to ssdp:all are one for each registered namespace, with its registered location, and with pairwise distinct USNs. |
| Ssdp.SearchComplete | src/ssdpserver.cpp:90-103 | The answers to ssdp:all are those to one targeted search for each namespace, one after the other, exactly where ssdp:all is not itself registered beside others. |
| Ssdp.OwnTextIgnored | src/ssdpserver.cpp:86-88 | Any text that names this server's uuid under a USN header, spelled in any case, is answered with nothing. |
| Ssdp.NoSelfFeeding | src/ssdpserver.cpp:86-223 | A message of any of the three builders, with any values, sent as text and read back by the same server, gets no reply; a NOTIFY always, and an answer if no value breaks its line, does not reach the assertion either. |
| Ssdp.EmptyUuidAnswersNobody | src/ssdpserver.cpp:88 | With an empty uuid every request is taken for the server's own. |
| Discovery.PollExact | src/ssdpserver.cpp:231-234 | The truncated, wrapping comparison with 60 passes exactly where the time modulo 2^32 seconds reaches 60000 ms. |
| Discovery.AnnouncementCadence | src/ssdpserver.cpp:224-245 | In every run, the burst in progress included, bursts start at least 60 s after the last one ended and at most min(60 s + 12 J, 65 s + J - 1 ms) after it, a window of W ms holds at most 1 + W/60000 starts, and below 835 s of jitter and work two starts are less than half the lease apart; while the flag is set the next burst is never overdue. |
| Discovery.LeaseFreshness | src/ssdpserver.cpp:224-245 | A control point that misses fewer than k bursts in a row, with k(M + B) + B < 1800 s for M = min(60 s + 12 J, 65 s + J - 1 ms), jitter J and work B, never finds its record timed out before the shutdown, whatever the caller does. |
| Discovery.RecordFollowsTrace | src/device.h:331-342 | In every run without loss a control point holds a record exactly while the last NOTIFY about the namespace is an alive. |
| Tightness.FreshExactly | src/ssdpserver.cpp:224-245 | For every jitter and work, a control point that misses fewer than k bursts in a row finds its record fresh in every run exactly when k(M + B) + B < 1800 s. |
| Tightness.OldestRecord | src/ssdpserver.cpp:224-245 | There is a run in which the record of such a control point reaches the age k(M + B) + B. |
| Tightness.FreshWithin29Bursts | src/ssdpserver.cpp:25-27 | Without jitter and with instant bursts that is k <= 29. |
| Discovery.ShutdownSafety | src/ssdpserver.cpp:71-76 | After the flag is cleared at most one more burst begins; once the destructor sends, the thread is gone and only its byebyes follow; at the end the last NOTIFY of every namespace is a byebye. |
| Discovery.OrderInvAlways | src/ssdpserver.cpp:147-162 | The ordering invariant behind both claims holds after every run. |
| Convergence.BurstsAreMessages | src/ssdpserver.cpp:147-162 | The signals of the machine, written out, are the bursts the server object sends, and those of a call are what suppress and announce send. |
| Convergence.LearnRendered | src/ssdpserver.cpp:194-223 | A control point that reads an alive message maps the USN of its namespace to its location, and one that reads a byebye drops it. |
| Convergence.LearnTexts | src/ssdpserver.cpp:194-223 | The same by the texts of the messages; any other status is passed over. |
| Convergence.TableFollowsLast | src/ssdpserver.cpp:194-223 | After any trace the table of a control point holds exactly the namespaces whose last NOTIFY is alive, each under its USN with its location. |
| Convergence.StartupConvergence | src/ssdpserver.cpp:147-155 | However thread bursts interleave, once announce has returned the table is exactly the registry, and once the destructor is done it is empty. |
| Convergence.AnswerAfterByebye | src/ssdpserver.cpp:71-120 | Some run ends with a search answer after all byebyes exactly when the uuid is not empty and something is registered. |
| ReceiveLoop.ReplyRouting | src/ssdpserverconnection.cpp:56-78 | In every run at most one receive is outstanding, none while a request is handled, and the replies sent are a prefix of answering each datagram at its own sender, all of it whenever the loop waits. |
| ReceiveLoop.ListensExactly | src/ssdpserverconnection.cpp:65-78 | In every run exactly one receive is armed, completed or being handled until the handler fails or the callback of a failed receive has run; exactly from then on no step is left. |
| ReceiveLoop.ReplyAccounting | src/ssdpserver.cpp:86-120 | Whenever the loop waits, the number of replies is the sum of what the datagrams were owed: all namespaces for a foreign ssdp:all, one for a known target, else none. |
| ReceiveLoop.CallbackRuns | src/ssdpserverconnection.cpp:65-78 | One call of the callback is the steps Begin, every Reply and Rearm of the loop, or Begin alone where it stops. |
| ReceiveLoop.Connection.Completes | src/ssdpserverconnection.cpp:73-75 | A completed receive overwrites the shared endpoint and buffer, and is a step of the loop. |
| ReceiveLoop.Connection.HandleReceiveFrom | src/ssdpserverconnection.cpp:65-78 | The callback sends the answers to the endpoint it was called for and arms one receive, or none after an error; its call is a sequence of steps of the loop, so after it the object is in a state some run reaches. |
| Keys.TypeNamed | src/datastore.h:168-210 | Parsing a type's name gives the type. |
| Keys.TypeTexts | src/datastore.h:128-210 | The eleven types and their texts. |
| Keys.ValidTypeExact | src/datastore.h:177-216 | A text is valid exactly when it is the name of the type it parses as; all others parse as file. |
| Keys.HashFixed | src/datastore.h:159-166 | A text is its own hash exactly when it is root, a menu name, or the numeral of its hash value. |
| Keys.HashExact | src/datastore.h:131-166 | Root and the seven menu names keep their text; every other text becomes the decimal numeral of its hash value. |
| Keys.BuildKey | src/datastore.h:232-241 | Appending the components in place gives the joined key. |
| Keys.KeyTexts | src/datastore.h:244-350 | The texts of the keys of a node, its child list, its files of a type, and its sorted list. |
| Keys.KeyReadsBackExactly | src/datastore.h:464-478 | A joined key determines its components exactly when none of them holds a colon. |
| Keys.FamiliesDisjoint | src/datastore.h:243-254 | For components of any text, node keys, list keys and files keys are each injective and never meet. |
| Keys.TypeListShared | src/datastore.h:251-254 | The list of a type is the list of a node exactly when the node is called like the type. |
| Keys.SortKeyApart | src/datastore.h:331 | The sorted list that Browse reads shares its key with no node, child list or files list. |
| Redis.InsertExact | src/datastore.h:402-403 | Insertion into a sorted set keeps its order and changes one score. |
| Redis.SortedExact | src/datastore.h:349-351 | That order is by ascending score, and at equal scores by the texts: the first differing character decides, or the shorter prefix comes first. |
| StdMap.BeforeExact | src/_utils.h:118 | The order of texts: the first differing character is smaller, or the text is a proper prefix. |
| Redis.RangeExact | src/datastore.h:331-350 | A range holds exactly the entries from the first to the last position, both included, negative positions counted from the end. |
| Redis.SortedUnique | src/datastore.h:349-351 | Two sorted sets with equal scores are listed equally. |
| Redis.LaterPairWins | src/datastore.h:457-459 | In the map of a list of pairs the value of a name is the one of its last pair. |
| Redis.NamesComeFromPairs | src/datastore.h:457-459 | Only names of pairs have a value in it. |
| Datastore.ToMap | src/datastore.h:454-461 | The loop fills the map that the list of pairs stands for, and an odd list is refused. |
| Datastore.DecodesEveryOrder | src/datastore.h:454-461 | That map is the stored hash for every order in which its fields come back. |
| Datastore.StoredNodeExact | src/datastore.h:304-310 | node returns the stored hash, and an empty map when there is none. |
| Datastore.GetAgreesWithNode | src/datastore.h:273-280 | get and node agree on every field, a missing one being the empty text. |
| Datastore.Store.SaveNode | src/datastore.h:292-301 | The command collected field by field has the effect of the store operation Save. |
| Datastore.WindowExact | src/datastore.h:349-351 | A positive count selects exactly the entries from index up to index + count. |
| Datastore.BrowseAllExact | src/datastore.h:331 | With the stop index of count -1 the range is the rest of the list exactly when the index is 1 or at or past the end. |
| Catalogue.SaveExact | src/datastore.h:292-301 | Saving overrides the stored fields by the given ones and touches no other key. |
| Catalogue.ZAddExact | src/datastore.h:402-417 | Adding sets one score of one sorted set, keeps it in order, and touches no other key. |
| Catalogue.ZRemExact | src/datastore.h:405-420 | Removing drops one member of one sorted set, and touches no other key. |
| Catalogue.OperationRefines | src/datastore.h:283-420 | Each operation changes the store as the abstract catalogue says, on its entry and on all others. |
| Catalogue.OperationTexts | src/datastore.h:283-420 | What each of the eight operations changes, by the text of its key, and that it changes nothing else in the database. |
| Catalogue.StoreRefinesCatalogue | src/datastore.h:283-420 | So does any sequence of operations, for keys of any text. |
| Catalogue.HistoryReadsBack | src/datastore.h:304-373 | After any history of an empty store, node, the two counts and the files listing report what the catalogue holds. |
| Catalogue.HistoryAscends | src/datastore.h:349-351 | After any history the members of every list and files list come by ascending score, equal scores in the order of their texts. |
| Catalogue.RemTypesUndoesAddTypes | src/datastore.h:402-406 | Removing undoes adding exactly when the hash of the key is the key. |
| Catalogue.RemNodesUndoesAddNodes | src/datastore.h:409-413 | For the global lists removing always undoes adding. |
| Didl.Document.Write | src/didl.cpp:27-165 | One write appends nothing, the whole object counted, or a partial element uncounted; a document whose writes all succeed stays valid. |
| Didl.RootFormed | src/didl.cpp:18-25 | The root element holds the written objects and repeats no attribute name. |
| Didl.ObjectWellFormed | src/didl.cpp:27-165 | Every written object has one title and one class, is a container exactly when its class says so, has at most one res and only as an item, and repeats no attribute name. |
| Didl.ResourceAttrsDistinct | src/didl.cpp:77-163 | No branch gives its res element two attributes of one name. |
| Didl.ClassMatchesElement | src/didl.cpp:8-16 | The two tables agree: container elements are those whose class starts with object.container. |
| Didl.ChildrenExact | src/didl.cpp:43-163 | An object shows its title, its class, each detail the node has, its art and its resource, and nothing else. |
| Written.ObjectTexts | src/didl.cpp:27-165 | The written object text by text and in document order: element, the four attributes, title, class, each detail, art, and the res with its text and each of its attributes, for every class text. |
| Written.OutcomeTexts | src/didl.cpp:29-163 | Nothing is written exactly without a class, and write throws exactly where parent, name, the season or number of an episode, or the extension or MIME type of a node with a res is missing. |
| Didl.DetailsShown | src/didl.cpp:43-65 | Every detail a node has is shown in its object under its element name, the year twice. |
| Browse.Server.BrowseAction | src/server.cpp:173-214 | The handler's reply is the specified one for every request, malformed numbers, unknown flags and overflowing windows included. |
| Browse.DispatchTexts | src/server.cpp:176-214 | The two flags, the arguments and their defaults, and RequestedCount 0, by their texts. |
| Browse.IdTexts | src/server.cpp:179-182 | Which ids are looked up as root, and which parents are shown as 0 and -1. |
| Browse.StoiExact | src/server.cpp:176-177 | White space, a sign, digits and a rest are read as the number, refused where an int is too small. |
| Browse.StopExact | src/datastore.h:331-350 | The last index of a window, and exactly where its arithmetic overflows an int. |
| Browse.Server.WriteKeys | src/server.cpp:199-208 | The callback loop leaves the objects of the keys in order, or stops at the first write that throws. |
| Browse.BrowseAccounting | src/server.cpp:199-210 | A window is answered exactly when every node in it can be written; then the objects are what is written for the window keys whose node has a class, in order, and NumberReturned counts them. It never exceeds TotalMatches where the sorted list permutes the children of a container that is no album; an album is bounded by its audio files. |
| Browse.MetadataAccounting | src/server.cpp:185-193 | 1 of 1 is right exactly when the node has a class, and childCount exactly when both ids have equally many children. |
| Browse.StoiOfDecimal | src/server.cpp:176-177 | The handler reads a decimal index or count back as the number. |
| Browse.WholeExact | src/datastore.h:304-310 | What Browse reads of a node is its stored hash, so whether it has a class and can be written is decided there. |
| Paging.PageExact | src/server.cpp:195-210 | One page is answered exactly when every node in its cut of the list can be written, and then shows the entries of the cut that have a class, in order, and counts them. |
| Paging.ListedExact | src/server.cpp:199-208 | By the texts of the keys: a node whose stored class is album lists its audio files, every other one, with or without a class, its sorted list. |
| Paging.BrowseListing | src/server.cpp:195-210 | Browse of the children by these texts: the objects written for the classed entries from index up to index + count. |
| Paging.ExactPaging | src/server.cpp:176-210 | The n/c + 1 requests at 0, c, 2c, ... are all answered exactly when every node in the list can be written; then the pages concatenate to the entries that have a class, in order, and their counts sum to how many these are. |
| Paging.FullPages | src/server.cpp:195-210 | Where every entry has a class, all pages are full but the last, and the pages are the list. |
| Paging.ClientReadsAll | src/server.cpp:176-210 | Where every entry has a class and can be written, a client that stops at the first short page stops exactly after page number n/c, and its pages are the list. |
| Paging.StoppingExact | src/server.cpp:195-210 | Stopping after some page loses nothing exactly when no entry behind it has a class. |
| Paging.BrowseAllReply | src/server.cpp:178 | A request for everything is answered with the rest of the list exactly when no entry it leaves out has a class; where all have one, when its index is 1 or at or past the end. |
| Albums.AlbumHistory | src/datastore.h:342-420 | After any history of the store, paging through an album shows exactly the files the history left in it that have a class, once each, by ascending score, or throws where one cannot be written; the counts agree with TotalMatches exactly when the child list is as long. |
| Navigation.ParentRoundTrip | src/server.cpp:179-182 | Normalising the emitted parentID gives the stored parent back exactly when that is neither "" nor "0". |
| Navigation.ClimbReachesRoot | src/didl.cpp:36-39 | From every object of a tree, following parentID takes depth + 1 steps, to "0" and then "-1". |
| Navigation.ClimbUnique | src/didl.cpp:36-39 | There is no other way up. |
| Description.For | src/_utils.h:84-93 | The sibling loop visits, in order, the children with the given name, or all of them. |
| Description.Device.Parse | src/device.h:354-434 | One loop for each level of the tree, from the root through version, device, icons and services; together they leave in the device what the reader finds. |
| Description.Device.ParseIconList | src/device.h:392-408 | One icon for each icon element of the list, in order. |
| Description.IconField | src/device.h:395-405 | Each named child of an icon element is read into its field. |
| Description.ServiceField | src/device.h:413-423 | Each named child of a service element is read into its field. |
| Description.DeviceField | src/device.h:369-388 | The named children of the device element, the base URL among them. |
| Description.ModelField | src/device.h:379-390 | The named children of the device element that tell of model and identity. |
| Description.UrlBaseTexts | src/device.h:387-431 | The base URL is taken from either of its two places. |
| Description.AtoiExact | src/device.h:362-402 | White space, a sign, digits and a rest are read as the number. |
| Description.ParseIcon | src/device.h:393-406 | The children of an icon element are read into its fields. |
| Description.Device.Timeout | src/device.h:334-339 | A device is timed out exactly when its age modulo 2^32 seconds reaches its own lease. |
| Description.UnknownElementsIgnored | src/device.h:354-434 | Trees that differ only in elements with unrecognised names, at any place visited, give the same device. |
| Description.InsertionIgnored | src/device.h:358-433 | An element inserted at any position under any element whose children are visited, with a name not recognised there, changes nothing. |
| Description.DescriptionReadsBack | src/server.cpp:304-384 | A fresh device that parses the server's description gets its name, UDN, three icons and two services in order with their URLs, and every other text, all written out. |
| Soap.Parse | src/server.cpp:47-61 | One loop each for envelope, body and action; together they read the command the reader finds. |
| Soap.CommandTexts | src/server.cpp:26-45 | The seven commands by their texts; every other text is none. |
| Soap.RequestReadsBack | src/server.cpp:26-61 | An action in a body is read with exactly its arguments, whatever prefixes are used and whatever stands beside the body. |
| Soap.PageOverSoap | src/server.cpp:170-210 | From the tree of a request for a page, through the command and the reply, to the document and the two counts a client reads in the response. |
| Soap.EnvelopeReadsBack | src/_utils.h:171-197 | The response carries the result text and both counts, and the counts read back as numbers. |
| Soap.EnvelopeTexts | src/_utils.h:183-191 | The four elements of a response with their types, written out. |

## Left out

- Sockets, threads and asio: delivery, loss and scheduling are steps of the state machines; multicast joins and socket errors are not modelled.
- Convergence.StartupConvergence: one in-order channel without loss or delay; the lossy channel is the one of Discovery.LeaseFreshness.
- Discovery.LeaseFreshness: a control point records the arrival of a message at the instant it is sent, and is the only party that loses messages.
- Discovery.AnnouncementCadence: assumes that jitter does not reach the wrap of the clock between two polls, and jumps of the system clock are not modelled.
- Ssdp.SsdpServer.RegisterNamespace: registering while the thread sends is a data race in the program and is no step of the machine; the registry is fixed before the run.
- Ssdp.SsdpServer.SendSuppress: the date it sends and the result of uname are opaque texts, one for each configuration; the names of the header constants of the HTTP library are fixed texts.
- HTTP and XML text: the parsers and printers are library code; requests are header maps, documents are trees. Ssdp.NoSelfFeeding reads messages with the reader of Headers, which is not the program's parser.
- The hash function and the names it gives: arbitrary numbers. Nothing is assumed about collisions.
- Redis scores are natural numbers, as the callers pass them; no doubles. The order of HGETALL is fixed in the model, and Datastore.DecodesEveryOrder shows that it does not matter.
- Browse.Server.BrowseAction: the store does not change while one request is served; overflow of the window arithmetic is a reply of its own (`Undefined`).
- Navigation.ClimbReachesRoot: for trees whose nodes carry a class and the fields write needs, and whose root has an empty parent.
- Paging.ExactPaging: for lists whose length plus the page size fits an int.
- Tightness.FreshExactly: assumes that one wait and two bursts together stay below 2^32 seconds, so that the clock does not wrap between them.
- Discovery.LeaseFreshness and the other runs: a request on which the handler's assertion fails ends the process, and with it the run.
- Description.Device.Parse: std::atoi on a number that does not fit is undefined and not modelled; the address fields set by a control point are left out.
- Default and descending sort, FT.SEARCH, tags, mime counters and the Lua scripts that build the sorted lists: Browse never asks for the first three, and the lists are given.
- Subscriptions, event messages, the client search, configuration, capability strings and icons: I/O and literals.
