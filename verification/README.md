# AstroBox: proofs about its mDNS responder and its power switch

This project models the parts of the AstroBox firmware and of the mDNS responder it ships with whose state is
hardest to keep right, and proves what they promise. Every module stands for one source file or one part of it.

| modules | what they model |
|---|---|
| `Bytes`, `Lists` | bytes, C strings, doubly linked lists as sequences |
| `Names`, `NameEquality`, `ServiceNames` | escaped domain names: labels, normalization, equality, hashing, service names (`domain.c`, `utf8.c`) |
| `StringLists`, `Records`, `TieBreak`, `RfcOrder` | TXT lists, keys and records, their equality, the order that decides simultaneous probes and where it is that of the standard (`strlst.c`, `rr.c`, `domain-util.c`, part of `server.c`) |
| `NameWire`, `RecordWire`, `Messages`, `Packets`, `PacketItems`, `Compression`, `Estimates` | the DNS wire format with name compression: pure readings and writings, the packet buffer that computes them in place, and the estimated size of a record (`dns.c`, part of `rr.c`) |
| `PrioLinks`, `HeapOrder`, `PrioQueues`, `TimeVals`, `TimeEvents` | the pointer-linked heap, times, and the queue of timed events (`prioq.c`, `timeval.c`, `timeeventq.c`) |
| `Hashmaps`, `CacheLives`, `Caches` | the hash map, and the record cache with its expiry and its passive observation of failure (`hashmap.c`, `cache.c`) |
| `KnownAnswers`, `QuerySchedulers`, `ResponseSchedulers`, `ResponseSending` | the two schedulers and the packets they send (`query-sched.c`, `response-sched.c`) |
| `AnnounceSteps`, `Announcers` | probing and announcing, entry groups and their counters (`announce.c`, `entry.c`, part of `server.c`) |
| `ButtonLock`, `PowerSequence` | the unlock gesture of the power button and the sequencing of the relays (`switcher.cpp`) |

Objects that the source updates in place are classes here. A `Valid()` predicate says what holds between any two
operations, every operation is proved to keep it, and its contract ties the new state to the old one through a pure
function or a predicate whose own laws are lemmas: what it promises in bytes, TTLs, percent and milliseconds, not in
the words of the function itself. Runs, where they matter, are sequences: interrupts and loop passes
in `ButtonLock`, passes in `PowerSequence`, timer events in `CacheLives` and `AnnounceSteps`, everything that can happen
to a group in `Announcers.Group.Run`, appended items in `Messages`.

## Results where the code and its documentation part

- The order of records is not that of section 8.2 of RFC 6762. A strict prefix sorts after the longer string, and names
  and HINFO strings compare without the length bytes they have on the wire. `RfcOrder.OrderAgrees` says exactly when the
  two orders agree, and three lemmas give records for which they do not. The order is still antisymmetric and transitive,
  so the tie-break is sound between hosts that run this code; `RfcOrder.MixedHosts` says that against a host that follows
  the standard it is sound exactly where the orders agree.
- Adding a negative amount can leave `tv_usec` at 1000000. `TimeVals.AddNormal` says exactly when, and
  `TimeVals.AddBreaksOrder` gives an input for which the order of times then goes wrong.
- The estimate of a record's size counts each name one byte too short, so that the packet meant for one large record may
  not hold it. `Estimates.EstimateIsExact` says exactly when it does, by the escapes of the names and the suffix they
  share; `Estimates.AddressDoesNotFit` gives a record for which it does not. `ResponseSending.SendResponse` says exactly
  when an answer is dropped for that.
- `goodbye_interface` drops probing announcers without counting them off. `Announcers.Group` keeps the exact balance
  in the ghost field `leaked`. `Announcers.Group.NextState` says exactly when a group is established, and
  `Announcers.Group.Run` that one which lost a probing announcer stays in its state until it is reset or withdrawn;
  `Announcers.DroppedWhileProbing` gives such a group.
- A domain whose first label starts with an underscore is taken for part of the type when a service name is split.
  `ServiceNames.SplitsIntoParts` says that this is the only way the round trip fails for a UTF-8 instance name, and
  `ServiceNames.DomainTakenForType` gives a type and a domain for which it does.
- TTL 2^32-1 is rewritten to the default when a record is read (`RecordWire.RecordComesBack`).
- `normalize_name` goes on after a label that does not fit; `Names.NormalizeName` says exactly when its result is the
  normal form, and `Names.NormalFormGrows` gives a name for which a buffer longer than the name is too short.

## Model

| member | source | states |
|---|---|---|
| `Names.UnescapeLabel` | gui/AstroBoxGUI/qtzeroconf/avahi-common/domain.c:41-112 | reads one label with escapes exactly as the loop-free reading Unescape does: content, rest, buffer limit, UTF-8 check and every malformed escape |
| `Names.EscapeLabel` | gui/AstroBoxGUI/qtzeroconf/avahi-common/domain.c:116-176 | succeeds exactly when the escaped label and its NUL fit; writes the whole escaped label, or a strict prefix of it |
| `Names.EscapesOf` | gui/AstroBoxGUI/qtzeroconf/avahi-common/domain.c:116-176 | letters, digits, dashes and underscores stay, a dot and a backslash get a backslash, any other byte becomes its three digits behind one |
| `Names.EscapeLeavesAlone` | gui/AstroBoxGUI/qtzeroconf/avahi-common/domain.c:116-176 | escaping leaves a label alone exactly if it holds nothing else |
| `Names.Limits` | gui/AstroBoxGUI/qtzeroconf/avahi-common/domain.c:41-112 | labels have 1 to 63 bytes, none of them zero, and are UTF-8; names have at most 1013 bytes as text |
| `Names.EncodedIsUtf8` | gui/AstroBoxGUI/qtzeroconf/avahi-common/utf8.c:33-110 | every sequence of Unicode characters, encoded, is accepted |
| `Names.Utf8IsEncoded` | gui/AstroBoxGUI/qtzeroconf/avahi-common/utf8.c:33-110 | whatever is accepted is the shortest encoding of some sequence of characters without surrogates and noncharacters |
| `Names.ScanEscape` | gui/AstroBoxGUI/qtzeroconf/avahi-common/domain.c:41-176 | unescaping inverts escaping on every label, up to the next dot or the end, and fails exactly on labels that hold a NUL |
| `Names.SplitShort` | gui/AstroBoxGUI/qtzeroconf/avahi-common/domain.c:178-217 | a joined list of labels splits back into the same labels exactly when each of them is valid |
| `Names.SplitJoin` | gui/AstroBoxGUI/qtzeroconf/avahi-common/domain.c:178-217 | splitting inverts joining on valid labels, so what normalization writes is in normal form |
| `Names.NormalFormIsNormal` | gui/AstroBoxGUI/qtzeroconf/avahi-common/domain.c:178-217 | normalization is idempotent and keeps every label; a name is normal exactly when normalization leaves it alone |
| `Names.NormalizeName` | gui/AstroBoxGUI/qtzeroconf/avahi-common/domain.c:178-217 | the normal form comes out exactly when it is shorter than the buffer; a malformed name never gives a result |
| `Names.NormalFormGrows` | gui/AstroBoxGUI/qtzeroconf/avahi-common/domain.c:178-217 | a name of one byte whose normal form takes four, and so does not fit a buffer of four |
| `NameEquality.DomainEqual` | gui/AstroBoxGUI/qtzeroconf/avahi-common/domain.c:229-252 | two valid names are equal exactly when they have the same labels but for the case of the 26 ASCII letters, whatever escapes they use; hence an equivalence |
| `NameEquality.DomainHash` | gui/AstroBoxGUI/qtzeroconf/avahi-common/domain.c:424-438 | the hash is a function of the labels in lower case, so equal names hash alike, with signed and with unsigned char |
| `NameEquality.HashOneMore` | gui/AstroBoxGUI/qtzeroconf/avahi-common/domain.c:424-438 | one byte more multiplies the hash by 31 and is added to it |
| `StringLists.Parse` | gui/AstroBoxGUI/qtzeroconf/avahi-common/strlst.c:69-106 | the parsed list is that of the recursive reading, empty strings left out, and a truncated string is an error |
| `StringLists.ParseSerialized` | gui/AstroBoxGUI/qtzeroconf/avahi-common/strlst.c:69-233 | parsing inverts serializing: the strings come back cut to 255 bytes and without the empty ones |
| `StringLists.ValidStringsAreKept` | gui/AstroBoxGUI/qtzeroconf/avahi-common/strlst.c:69-233 | a list whose strings are neither empty nor longer than 255 bytes comes back as it was |
| `StringLists.Reverse` | gui/AstroBoxGUI/qtzeroconf/avahi-common/strlst.c:118-129 | relinks the list in place into exactly the reverse order, with no node gained or lost |
| `StringLists.Serialize` | gui/AstroBoxGUI/qtzeroconf/avahi-common/strlst.c:168-233 | for a buffer of any size, the strings come out in the order they were added, the last one cut where the room ends, and the list ends as it began |
| `StringLists.WholeListFits` | gui/AstroBoxGUI/qtzeroconf/avahi-common/strlst.c:168-233 | a buffer of the size the sizing pass returns, or a longer one, takes the whole list |
| `StringLists.CutListParses` | gui/AstroBoxGUI/qtzeroconf/avahi-common/strlst.c:69-233 | a buffer that is too short cuts the list, but never leaves data that cannot be parsed |
| `Records.KeyEqual` | gui/AstroBoxGUI/qtzeroconf/avahi-core/rr.c:323-333 | keys are equal exactly when their canonical forms are: an equivalence |
| `Records.KeysEqualWhen` | gui/AstroBoxGUI/qtzeroconf/avahi-core/rr.c:323-333 | keys are equal exactly if types and classes are, and the names but for the case of letters |
| `Records.KeyHash` | gui/AstroBoxGUI/qtzeroconf/avahi-core/rr.c:357-364 | the hash depends on the canonical key alone, so equal keys hash alike |
| `Records.RecordEqualNoTtl` | gui/AstroBoxGUI/qtzeroconf/avahi-core/rr.c:366-416 | records are equal exactly when their keys are and their data agrees field by field, names up to escapes and letter case |
| `Records.RecordsEqualWhen` | gui/AstroBoxGUI/qtzeroconf/avahi-core/rr.c:366-404 | the canonical form stands for exactly that |
| `TieBreak.RecordCompare` | gui/AstroBoxGUI/qtzeroconf/avahi-core/rr.c:534-650 | the comparison with its loops computes one order by class, type and data |
| `TieBreak.BinaryDomainCmp` | gui/AstroBoxGUI/qtzeroconf/avahi-core/domain-util.c:147-169 | names compare label by label, a name that has ended first |
| `TieBreak.Antisymmetric` | gui/AstroBoxGUI/qtzeroconf/avahi-core/rr.c:555-650 | exchanging two valid records negates the comparison |
| `TieBreak.Transitive` | gui/AstroBoxGUI/qtzeroconf/avahi-core/rr.c:555-650 | the comparison is transitive on all valid records |
| `TieBreak.Ties` | gui/AstroBoxGUI/qtzeroconf/avahi-core/rr.c:555-650 | two records tie exactly when class, type and data agree, names with their case |
| `TieBreak.PrefixSortsAfter` | gui/AstroBoxGUI/qtzeroconf/avahi-core/rr.c:534-549 | a strict prefix sorts after the longer string |
| `RfcOrder.OrderAgrees` | gui/AstroBoxGUI/qtzeroconf/avahi-core/rr.c:534-650 | the code orders two valid records as section 8.2 of RFC 6762 does exactly if class or type differ, or the data agree: byte strings with neither a strict prefix of the other, and the first labels or strings that differ in the order of their lengths |
| `RfcOrder.DataOrderAgrees` | gui/AstroBoxGUI/qtzeroconf/avahi-core/rr.c:555-650 | the same for the data of each record type, against the raw bytes that go over the wire uncompressed |
| `RfcOrder.CompareRawNames` | gui/AstroBoxGUI/qtzeroconf/avahi-core/domain-util.c:147-169 | two names compare as their uncompressed wire form exactly if the first labels that differ are in the order of their lengths, the lone dot apart |
| `RfcOrder.MixedHosts` | gui/AstroBoxGUI/qtzeroconf/avahi-core/server.c:196-239 | between a host that runs this code and one that follows the standard, with one probed record each, exactly one withdraws exactly if the orders agree |
| `RfcOrder.LongerTxtComesFirst` | gui/AstroBoxGUI/qtzeroconf/avahi-core/rr.c:534-549 | two TXT records that are ordered the other way round |
| `RfcOrder.LongerHinfoComesFirst` | gui/AstroBoxGUI/qtzeroconf/avahi-core/rr.c:591-599 | two HINFO records, neither a prefix of the other, that are ordered the other way round |
| `RfcOrder.LongerLabelComesFirst` | gui/AstroBoxGUI/qtzeroconf/avahi-core/domain-util.c:147-169 | two targets that are ordered the other way round |
| `TieBreak.IncomingProbe` | gui/AstroBoxGUI/qtzeroconf/avahi-core/server.c:196-239 | the record set is withdrawn exactly when the probe is not ours, beats one of our probing records and loses to none |
| `TieBreak.NeverBothWithdraw` | gui/AstroBoxGUI/qtzeroconf/avahi-core/server.c:196-239 | two hosts that probe for the same name never both withdraw |
| `TieBreak.OneWithdraws` | gui/AstroBoxGUI/qtzeroconf/avahi-core/server.c:196-239 | when no record of one host ties with one of the other, one of the two withdraws, so they never both win |
| `NameWire.WriteNameReads` | gui/AstroBoxGUI/qtzeroconf/avahi-core/dns.c:168-234 | a normal name appended at the end, with any suffix compressed, reads back from there, and its table entries decode to their keys |
| `NameWire.WriteNameKeepsTable` | gui/AstroBoxGUI/qtzeroconf/avahi-core/dns.c:168-234 | appending a name keeps every table entry decoding to exactly its key |
| `NameWire.NameRoundTrip` | gui/AstroBoxGUI/qtzeroconf/avahi-core/dns.c:346-430 | consume_name gives back a written name exactly when its passes fit the cap of 127 and its text the buffer; 63 labels always do |
| `NameWire.NameLayout` | gui/AstroBoxGUI/qtzeroconf/avahi-core/dns.c:168-234 | what is where on the wire: a zero byte, a pointer with its two top bits set and 14 bits of offset, or a length and a label in front of the rest of the name |
| `NameWire.ReadStable` | gui/AstroBoxGUI/qtzeroconf/avahi-core/dns.c:346-430 | what was read does not change when more bytes are appended or the header is rewritten |
| `RecordWire.KeyRoundTrip` | gui/AstroBoxGUI/qtzeroconf/avahi-core/dns.c:661-708 | consume_key inverts append_key exactly when the reader can take the name; the high bit of the class becomes the unicast flag |
| `RecordWire.KeyLayout` | gui/AstroBoxGUI/qtzeroconf/avahi-core/dns.c:689-708 | name, type, and class under the unicast bit, each field with its high byte first |
| `RecordWire.KeyComesBack` | gui/AstroBoxGUI/qtzeroconf/avahi-core/dns.c:661-708 | a key of a class below 0x8000 comes back as itself, with its unicast bit, exactly if its name takes at most 127 passes and 255 bytes |
| `RecordWire.DataRoundTrip` | gui/AstroBoxGUI/qtzeroconf/avahi-core/dns.c:523-620 | every kind of record data reads back: names, SRV, HINFO, TXT, addresses and generic data |
| `RecordWire.RecordRoundTrip` | gui/AstroBoxGUI/qtzeroconf/avahi-core/dns.c:622-821 | consume_record inverts append_record exactly when the reader can take both names; the flush bit survives, the TTL is capped and 2^32-1 becomes the default |
| `RecordWire.RecordLayout` | gui/AstroBoxGUI/qtzeroconf/avahi-core/dns.c:784-821 | name, type, class under the flush bit, TTL under its cap, and the length of what follows, each field with its high byte first |
| `RecordWire.RecordComesBack` | gui/AstroBoxGUI/qtzeroconf/avahi-core/dns.c:622-821 | a record that the format can hold comes back as itself with its flush bit, with the TTL capped if it is above the cap, and with 4500 for a TTL of 2^32-1 |
| `RecordWire.RecordKeepsTable` | gui/AstroBoxGUI/qtzeroconf/avahi-core/dns.c:784-821 | appending a record keeps every table entry decoding to exactly its key |
| `Messages.MessageRoundTrip` | gui/AstroBoxGUI/qtzeroconf/avahi-core/dns.c:622-821 | any series of appended questions and answers reads back as the same items in the same order, whichever suffixes were compressed |
| `Messages.MessageComesBack` | gui/AstroBoxGUI/qtzeroconf/avahi-core/dns.c:622-821 | any series of such keys and records comes back as the same keys and records in the same order |
| `Messages.MessageKeepsTable` | gui/AstroBoxGUI/qtzeroconf/avahi-core/dns.c:156-234 | after any series of appends every table entry decodes to exactly its key |
| `Packets.Packet.AppendName` | gui/AstroBoxGUI/qtzeroconf/avahi-core/dns.c:168-234 | in place: writes exactly the bytes and entries of WriteName when they fit, and leaves what was below the old size alone when not |
| `Packets.Packet.Rollback` | gui/AstroBoxGUI/qtzeroconf/avahi-core/dns.c:156-166 | cutting the packet back drops exactly the table entries at or after the new size |
| `Packets.Packet.AppendKey` | gui/AstroBoxGUI/qtzeroconf/avahi-core/dns.c:689-708 | all or nothing: the whole key and its entries, or size, bytes and table exactly as before |
| `Packets.Packet.AppendData` | gui/AstroBoxGUI/qtzeroconf/avahi-core/dns.c:710-782 | writes exactly the bytes and entries of WriteData when they fit |
| `Packets.Packet.AppendRecord` | gui/AstroBoxGUI/qtzeroconf/avahi-core/dns.c:784-821 | all or nothing: the whole record with its length filled in afterwards, or size, bytes and table exactly as before |
| `Packets.Packet.SetField` | gui/AstroBoxGUI/qtzeroconf/avahi-core/dns.c:134-139 | overwrites one 16-bit field of the packet and nothing else |
| `Packets.Packet.ConsumeName` | gui/AstroBoxGUI/qtzeroconf/avahi-core/dns.c:346-430 | the loop over labels and pointers with its cap of 127 passes returns exactly the recursive reading, and moves the cursor past it |
| `Packets.Packet.ConsumeKey` | gui/AstroBoxGUI/qtzeroconf/avahi-core/dns.c:661-687 | returns exactly ReadKey at the cursor |
| `Packets.Packet.ConsumeData` | gui/AstroBoxGUI/qtzeroconf/avahi-core/dns.c:523-620 | returns exactly ReadData at the cursor, length mismatches included |
| `Packets.Packet.ConsumeRecord` | gui/AstroBoxGUI/qtzeroconf/avahi-core/dns.c:622-659 | returns exactly ReadRecord at the cursor |
| `PacketItems.AddAnswer` | gui/AstroBoxGUI/qtzeroconf/avahi-core/dns.c:784-821 | a packet that holds some items holds one more, or the same ones if the record does not fit |
| `PacketItems.AddQuestion` | gui/AstroBoxGUI/qtzeroconf/avahi-core/dns.c:689-708 | a packet that holds some items holds one more, or the same ones if the key does not fit |
| `PacketItems.TableDecodes` | gui/AstroBoxGUI/qtzeroconf/avahi-core/dns.c:156-166 | between operations every name table entry of the packet object decodes to exactly its key |
| `PacketItems.HeldItemsReadBack` | gui/AstroBoxGUI/qtzeroconf/avahi-core/dns.c:622-687 | everything a packet object holds reads back in order, up to the end of the packet |
| `PacketItems.HeldItemsComeBack` | gui/AstroBoxGUI/qtzeroconf/avahi-core/dns.c:622-687 | the same for what a packet object holds |
| `Compression.NamePays` | gui/AstroBoxGUI/qtzeroconf/avahi-core/dns.c:168-234 | a name pays with its own bytes for the table entries it makes, and makes one for each of its suffixes |
| `Compression.AnyName` | gui/AstroBoxGUI/qtzeroconf/avahi-core/dns.c:168-234 | a packet with fewer names in its table writes a name with at most the bytes of the labels it lacks more than a fuller one |
| `Compression.ItemPaid` | gui/AstroBoxGUI/qtzeroconf/avahi-core/dns.c:689-821 | the labels of all names in a table never take more than the packet has bytes after its header |
| `Compression.RecordFits` | gui/AstroBoxGUI/qtzeroconf/avahi-core/dns.c:784-821 | a record that fits a packet in use, thanks to compression, also fits an empty packet of the same size |
| `KnownAnswers.Place` | gui/AstroBoxGUI/qtzeroconf/avahi-core/query-sched.c:239-266 | a record that does not fit starts a new packet, the full one going out with the truncation bit, and is dropped exactly if it does not fit an empty one |
| `KnownAnswers.SendKnownAnswers` | gui/AstroBoxGUI/qtzeroconf/avahi-core/query-sched.c:228-271 | terminates; the answers of all packets in order are exactly the records that fit an empty packet, each ANCOUNT counts its answers, the flags are zero but for the truncation bit, which is set on all packets but the last, and each of those was closed by an answer that had no room in it |
| `QuerySchedulers.QueryScheduler.Post` | gui/AstroBoxGUI/qtzeroconf/avahi-core/query-sched.c:354-391 | a question asked in the last 100 ms is refused; otherwise it is scheduled once, at once or in exactly 100 ms and never later than before, and one poster more is counted |
| `QuerySchedulers.QueryScheduler.Incoming` | gui/AstroBoxGUI/qtzeroconf/avahi-core/query-sched.c:393-416 | a scheduled question asked by another host moves to the history; jobs and history entries of other keys stay as they are |
| `QuerySchedulers.QueryScheduler.FindHistory` | gui/AstroBoxGUI/qtzeroconf/avahi-core/query-sched.c:329-352 | finds a question exactly if it was asked in the last 100 ms; an older entry is removed |
| `QuerySchedulers.QueryScheduler.Withdraw` | gui/AstroBoxGUI/qtzeroconf/avahi-core/query-sched.c:418-450 | each scheduled job of this id loses one poster, up to the first whose last one it was, which is dropped and nothing else |
| `QuerySchedulers.QueryScheduler.Ask` | gui/AstroBoxGUI/qtzeroconf/avahi-core/query-sched.c:212-311 | the question goes out first, then the other scheduled ones in order, until the next one has no room or none is left, then the known answers to all of them; the jobs left are exactly the rest |
| `ResponseSchedulers.ResponseScheduler.Post` | gui/AstroBoxGUI/qtzeroconf/avahi-core/response-sched.c:351-425 | refused exactly if the querier knows it, or it was sent lately with the flush bit it needs: a goodbye as a goodbye, anything else with half its TTL or more; otherwise scheduled once, at once or after 20 to 120 ms, with no other answer lost, delayed or deprived of its flush bit |
| `ResponseSchedulers.CoversInTtls` | gui/AstroBoxGUI/qtzeroconf/avahi-core/response-sched.c:364-376 | what is as good, in TTLs: a goodbye for a goodbye, and otherwise half the TTL or more |
| `ResponseSchedulers.PostTimeDelay` | gui/AstroBoxGUI/qtzeroconf/avahi-core/response-sched.c:384-384 | an immediate answer does not wait, any other waits for 20 ms and up to 100 more |
| `ResponseSchedulers.ResponseScheduler.Merge` | gui/AstroBoxGUI/qtzeroconf/avahi-core/response-sched.c:387-410 | a duplicate merges into the scheduled job: the earlier time, either flush bit, and the querier kept exactly while it is the only one |
| `ResponseSchedulers.ResponseScheduler.CheckKnown` | gui/AstroBoxGUI/qtzeroconf/avahi-core/response-sched.c:362-369 | suppressed exactly if this querier sent the record in the last 700 ms, as a goodbye if it is one, and otherwise with half its TTL or more |
| `ResponseSchedulers.ResponseScheduler.CheckHistory` | gui/AstroBoxGUI/qtzeroconf/avahi-core/response-sched.c:372-382 | suppressed exactly if the record was sent in the last 500 ms, likewise, and with the flush bit it needs; an entry that does not suffice is forgotten |
| `ResponseSchedulers.ResponseScheduler.Incoming` | gui/AstroBoxGUI/qtzeroconf/avahi-core/response-sched.c:427-465 | a scheduled answer moves to the history exactly if what another host sent has the flush bit it needs and is as good, in TTLs; every other stays as it is |
| `ResponseSchedulers.ResponseScheduler.Suppress` | gui/AstroBoxGUI/qtzeroconf/avahi-core/response-sched.c:467-503 | a known answer takes back a scheduled one exactly if its sender is the only one that asked and it is as good, in TTLs |
| `ResponseSchedulers.WithoutTwinsPerQuerier` | gui/AstroBoxGUI/qtzeroconf/avahi-core/response-sched.c:104-120 | freeing a suppressed job leaves no other one for the same record and querier |
| `ResponseSending.SendResponse` | gui/AstroBoxGUI/qtzeroconf/avahi-core/response-sched.c:200-263 | the answer goes out first with others from the head of the list, until the next one has no room or none is left, or alone, or not at all exactly if it fits no packet of the interface and is not roomy; none goes out without its flush bit, every other answer stays scheduled, the records that the answers refer to are scheduled unless they were sent or are known, ANCOUNT counts them, and the flags say that it is an authoritative response |
| `Estimates.EstimateIsExact` | gui/AstroBoxGUI/qtzeroconf/avahi-core/rr.c:488-532 | the packet made for a single record by its estimate holds it exactly if escapes, a final dot and the suffix its two names share make up for one byte for each name |
| `Estimates.NamelessEstimate` | gui/AstroBoxGUI/qtzeroconf/avahi-core/rr.c:488-532 | a record with no name in its data fits exactly if its owner name is escaped, ends in a dot or is the root |
| `Estimates.PlainEstimate` | gui/AstroBoxGUI/qtzeroconf/avahi-core/rr.c:488-532 | without escapes a record with no name in its data never fits, and one with a name fits exactly if two bytes or more of it are shared |
| `Estimates.NameSize` | gui/AstroBoxGUI/qtzeroconf/avahi-core/dns.c:168-234 | the exact number of bytes a name takes on the wire, from its text and the longest suffix the packet holds |
| `Estimates.AddressDoesNotFit` | gui/AstroBoxGUI/qtzeroconf/avahi-core/rr.c:488-532 | an address record that does not fit the packet made for it |
| `PrioLinks.SwappedIsExchange` | gui/AstroBoxGUI/qtzeroconf/avahi-core/prioq.c:78-255 | exchanging two names in the level-order sequence is exchanging two positions |
| `PrioLinks.ExchangeWithParent` | gui/AstroBoxGUI/qtzeroconf/avahi-core/prioq.c:90-161 | parent and child: every tree link is the old one with the two names exchanged, and so is the root |
| `PrioLinks.ExchangeUnrelated` | gui/AstroBoxGUI/qtzeroconf/avahi-core/prioq.c:162-204 | unrelated nodes and siblings: every tree link is the old one with the two names exchanged, and so is the root |
| `PrioLinks.ExchangeNeighbours` | gui/AstroBoxGUI/qtzeroconf/avahi-core/prioq.c:206-235 | list neighbours: every list link is the old one with the two names exchanged, and so is the end |
| `PrioLinks.ExchangeApart` | gui/AstroBoxGUI/qtzeroconf/avahi-core/prioq.c:236-255 | other list positions: every list link is the old one with the two names exchanged, and so is the end |
| `PrioQueues.PrioQueue.ExchangeNodes` | gui/AstroBoxGUI/qtzeroconf/avahi-core/prioq.c:78-255 | exactly the swap of two positions, with every parent, child, next, prev, root, last and coordinate link right, in all cases |
| `PrioQueues.PrioQueue.GetNodeAt` | gui/AstroBoxGUI/qtzeroconf/avahi-core/prioq.c:55-76 | the bits of x lead from the root to the node with coordinates x and y |
| `PrioQueues.ChildCoordinates` | gui/AstroBoxGUI/qtzeroconf/avahi-core/prioq.c:55-76 | one more bit of x is one more step down the tree |
| `HeapOrder.SiftUp` | gui/AstroBoxGUI/qtzeroconf/avahi-core/prioq.c:263-265 | moving up a key smaller than its parent leaves the heap broken at most one level higher |
| `HeapOrder.SiftDown` | gui/AstroBoxGUI/qtzeroconf/avahi-core/prioq.c:267-287 | moving down a key greater than its smallest child leaves the heap broken at most one level lower |
| `HeapOrder.RootIsLeast` | gui/AstroBoxGUI/qtzeroconf/avahi-core/prioq.c:258-288 | the root of a heap is a least key |
| `PrioQueues.PrioQueue.Shuffle` | gui/AstroBoxGUI/qtzeroconf/avahi-core/prioq.c:258-288 | from a heap broken at one node only it terminates with heap order restored, and the same nodes |
| `PrioQueues.PrioQueue.Put` | gui/AstroBoxGUI/qtzeroconf/avahi-core/prioq.c:290-338 | one node more, linked where its coordinates say, and a valid heap |
| `PrioQueues.PrioQueue.Remove` | gui/AstroBoxGUI/qtzeroconf/avahi-core/prioq.c:340-388 | one node less, the others untouched, and a valid heap |
| `PrioQueues.PrioQueue.RootIsMinimum` | gui/AstroBoxGUI/qtzeroconf/avahi-core/prioq.c:258-388 | in every valid queue no key is smaller than the one at the root |
| `TimeVals.CompareIsOrder` | gui/AstroBoxGUI/qtzeroconf/avahi-common/timeval.c:30-47 | the comparison of fields is the order of time on normal values |
| `TimeVals.DiffIsExact` | gui/AstroBoxGUI/qtzeroconf/avahi-common/timeval.c:49-57 | the difference is exact for all values |
| `TimeVals.AddIsExact` | gui/AstroBoxGUI/qtzeroconf/avahi-common/timeval.c:59-74 | adding moves the time by exactly the amount, negative ones included, and adding back undoes it |
| `TimeVals.AddNormal` | gui/AstroBoxGUI/qtzeroconf/avahi-common/timeval.c:59-74 | the result is normal exactly unless the sum of microseconds is negative and a whole number of seconds |
| `TimeVals.AddBreaksOrder` | gui/AstroBoxGUI/qtzeroconf/avahi-common/timeval.c:59-74 | a concrete sum that is not normal and compares as earlier than the same time |
| `TimeVals.ElapsesInTime` | gui/AstroBoxGUI/qtzeroconf/avahi-common/timeval.c:86-124 | the time that elapses is what was asked for and less than the jitter on top of it, for every random number |
| `TimeEvents.TimeEventQueue.New` | gui/AstroBoxGUI/qtzeroconf/avahi-core/timeeventq.c:161-201 | one event more; the poll timeout is again the least expiry |
| `TimeEvents.TimeEventQueue.Free` | gui/AstroBoxGUI/qtzeroconf/avahi-core/timeeventq.c:203-213 | one event less; the poll timeout is again the least expiry, or disabled |
| `TimeEvents.TimeEventQueue.Update` | gui/AstroBoxGUI/qtzeroconf/avahi-core/timeeventq.c:215-224 | one expiry changed; the poll timeout is again the least expiry |
| `TimeEvents.TimeEventQueue.Expire` | gui/AstroBoxGUI/qtzeroconf/avahi-core/timeeventq.c:76-103 | runs only an event that is due and minimal by expiry and last run, which then steps behind the others of the same expiry; runs none only if none is due |
| `Hashmaps.HashMap.Lookup` | gui/AstroBoxGUI/qtzeroconf/avahi-core/hashmap.c:55-66 | looks up the finite map on keys modulo equality that the entries stand for |
| `Hashmaps.HashMap.Insert` | gui/AstroBoxGUI/qtzeroconf/avahi-core/hashmap.c:125-153 | never overwrites: adds the pair exactly if no equal key is there |
| `Hashmaps.HashMap.Replace` | gui/AstroBoxGUI/qtzeroconf/avahi-core/hashmap.c:156-187 | always stores the new key and value for the key modulo equality |
| `Hashmaps.HashMap.Remove` | gui/AstroBoxGUI/qtzeroconf/avahi-core/hashmap.c:68-84 | takes exactly the equal key away, from its bucket and from the entry list |
| `Hashmaps.WithoutNoTwins` | gui/AstroBoxGUI/qtzeroconf/avahi-core/hashmap.c:68-84 | freeing an entry leaves no other with an equal key |
| `Caches.Cache.RemoveEntry` | gui/AstroBoxGUI/qtzeroconf/avahi-core/cache.c:35-65 | one entry leaves the list, its chain and the count; the map key of the chain is that of its new first record |
| `Caches.Cache.Walk` | gui/AstroBoxGUI/qtzeroconf/avahi-core/cache.c:114-144 | by exact key or by pattern, the entries visited are the whole list filtered, in the same order |
| `Caches.MatchingByKey` | gui/AstroBoxGUI/qtzeroconf/avahi-core/cache.c:114-144 | a key that is no pattern matches exactly the entries of the equal key |
| `Caches.PatternStandsFor` | gui/AstroBoxGUI/qtzeroconf/avahi-core/rr.c:335-348 | a pattern stands for the keys of its name, of any type or class where its own is 255 |
| `Caches.Cache.StoreRecord` | gui/AstroBoxGUI/qtzeroconf/avahi-core/cache.c:321-335 | replacing a record by an equal one keeps list, chains and map keys right |
| `Caches.Cache.AddEntry` | gui/AstroBoxGUI/qtzeroconf/avahi-core/cache.c:344-361 | a new record at the head of list and chain, with no two records equal up to TTL and the count within its limit |
| `Caches.Cache.FlushKey` | gui/AstroBoxGUI/qtzeroconf/avahi-core/cache.c:302-313 | exactly the entries of the key that are older than one second go in one second |
| `Caches.Cache.Learn` | gui/AstroBoxGUI/qtzeroconf/avahi-core/cache.c:292-371 | the record is in the cache afterwards, renewed and to expire at 80 percent of its TTL or less than two percent later, unless it is new and the cache full; others change only by a flush of their key |
| `Caches.Cache.Goodbye` | gui/AstroBoxGUI/qtzeroconf/avahi-core/cache.c:284-290 | a known record goes in one second; nothing else changes |
| `Caches.Cache.Update` | gui/AstroBoxGUI/qtzeroconf/avahi-core/cache.c:276-374 | both branches together: what becomes of the record itself and of every other entry |
| `Caches.Cache.Elapse` | gui/AstroBoxGUI/qtzeroconf/avahi-core/cache.c:166-224 | the entry moves to its next state and expires at 85, 90, 95 or 100 percent of its TTL or less than two percent later, or is removed, not before its full TTL unless it was set to go |
| `Caches.Cache.NoneKeptForLong` | gui/AstroBoxGUI/qtzeroconf/avahi-core/cache.c:166-264 | every entry expires between 80 and 102 percent of its TTL, unless it was set to go in one second |
| `Caches.Cache.StartPoof` | gui/AstroBoxGUI/qtzeroconf/avahi-core/cache.c:442-492 | exactly the entries that match the question are observed once more |
| `Caches.Cache.StopPoof` | gui/AstroBoxGUI/qtzeroconf/avahi-core/cache.c:494-513 | exactly the doubted entry of this record and address becomes valid again, to expire at 80 percent of its TTL or less than two percent later |
| `Caches.Cache.Flush` | gui/AstroBoxGUI/qtzeroconf/avahi-core/cache.c:433-438 | terminates with an empty cache |
| `CacheLives.NextExpiryInWindow` | gui/AstroBoxGUI/qtzeroconf/avahi-core/cache.c:236-264 | the expiry lies in the two percent of the TTL after the given percentage, for every random number |
| `CacheLives.ElapsedIsLater` | gui/AstroBoxGUI/qtzeroconf/avahi-core/cache.c:166-224 | each refresh point is strictly later than the one before, in the next window |
| `CacheLives.RefreshPoints` | gui/AstroBoxGUI/qtzeroconf/avahi-core/cache.c:166-274 | an undisturbed entry gets exactly four refresh points at strictly increasing times and lives for its full TTL (section 5.2 of RFC 6762) |
| `CacheLives.LifeInNumbers` | gui/AstroBoxGUI/qtzeroconf/avahi-core/cache.c:166-274 | an undisturbed entry is refreshed at 80, 85, 90 and 95 percent of its TTL and goes at 100, each time less than two percent later |
| `CacheLives.WindowsInNumbers` | gui/AstroBoxGUI/qtzeroconf/avahi-core/cache.c:166-264 | where in its TTL an entry of each state expires |
| `CacheLives.StatesInOrder` | gui/AstroBoxGUI/qtzeroconf/avahi-core/cache.c:166-224 | the states follow one another, and then the entry is removed |
| `CacheLives.PoofIsPatient` | gui/AstroBoxGUI/qtzeroconf/avahi-core/cache.c:442-485 | a valid entry is given up only after unanswered questions spread over four seconds |
| `CacheLives.PoofGivesUp` | gui/AstroBoxGUI/qtzeroconf/avahi-core/cache.c:442-485 | unanswered questions a second or more apart are counted from the second one on, and with the fifth the entry is given up |
| `AnnounceSteps.FireHealthy` | gui/AstroBoxGUI/qtzeroconf/avahi-core/announce.c:111-176 | every timer event keeps the counters right, and the timer at a quarter of a second after a probe and one, two, four seconds after an announcement |
| `AnnounceSteps.ReleasedHealthy` | gui/AstroBoxGUI/qtzeroconf/avahi-core/announce.c:86-108 | so does the release of a waiting announcer by its group |
| `AnnounceSteps.ReannouncedHealthy` | gui/AstroBoxGUI/qtzeroconf/avahi-core/announce.c:417-467 | so does reannouncing |
| `AnnounceSteps.InitialHealthy` | gui/AstroBoxGUI/qtzeroconf/avahi-core/announce.c:198-229 | so does going to the initial state |
| `AnnounceSteps.RunsToTheEnd` | gui/AstroBoxGUI/qtzeroconf/avahi-core/announce.c:111-176 | undisturbed, an announcer stops registered after three probes if it must probe and three announcements, or four if released with its counter at zero, at exactly the delays of its plan (sections 8.1 and 8.3 of RFC 6762) |
| `AnnounceSteps.FromTheBeginning` | gui/AstroBoxGUI/qtzeroconf/avahi-core/announce.c:111-229 | from the beginning: probes after 0, 250 and 250 ms, announcements after 250, 1000 and 2000 ms more; without probing, announcements after 0, 1000 and 2000 ms; or nothing |
| `AnnounceSteps.InPendingGroup` | gui/AstroBoxGUI/qtzeroconf/avahi-core/announce.c:198-229 | in a pending group an entry probes if it must, and waits otherwise unless it is not to be announced |
| `AnnounceSteps.AfterRelease` | gui/AstroBoxGUI/qtzeroconf/avahi-core/announce.c:86-108 | released at once, an announcer has announced and does so after 1000 and 2000 ms more, or four times after 0, 1000, 2000 and 4000 ms |
| `AnnounceSteps.ReannouncedProbesAgain` | gui/AstroBoxGUI/qtzeroconf/avahi-core/announce.c:417-467 | reannounced, an announcer probes anew exactly if it must and was probing or waiting, and otherwise waits or announces again unless it is not to be announced |
| `AnnounceSteps.SharedIsRegistered` | gui/AstroBoxGUI/qtzeroconf/avahi-core/announce.c:306-321 | an entry that need not be unique counts as registered all the time |
| `Announcers.Group.CheckProbed` | gui/AstroBoxGUI/qtzeroconf/avahi-core/announce.c:71-109 | the group is established exactly if it is registering, nobody probes and no probing announcer was dropped; then every waiting announcer goes on |
| `Announcers.Group.NextState` | gui/AstroBoxGUI/qtzeroconf/avahi-core/announce.c:111-176 | a timer event does exactly one step, and the group becomes established exactly if it is registering, none was dropped while probing, and this announcer was the last one to probe and has finished |
| `Announcers.Group.Step` | gui/AstroBoxGUI/qtzeroconf/avahi-core/announce.c:71-510 | whatever happens to a group, its invariant is kept, it becomes established only when nobody probes, and no event but reset and withdrawal changes the state of a group that lost a probing announcer |
| `Announcers.Group.Run` | gui/AstroBoxGUI/qtzeroconf/avahi-core/announce.c:71-510 | in every run, once a probing announcer was dropped the group stays in its state until it is reset or withdrawn, so that a registering one is never established |
| `Announcers.Group.ComesAndGoes` | gui/AstroBoxGUI/qtzeroconf/avahi-core/announce.c:494-510 | an interface that comes and goes while its announcer probes leaves a registering group counting one that is gone |
| `Announcers.DroppedWhileProbing` | gui/AstroBoxGUI/qtzeroconf/avahi-core/announce.c:37-57 | a concrete group that counts a probing announcer it does not have |
| `Announcers.Group.CounterBounds` | gui/AstroBoxGUI/qtzeroconf/avahi-core/announce.c:198-229 | n_probing is at least the number of probing announcers, and equal until one is dropped while probing |
| `Announcers.Group.RegisteredInEstablishedGroup` | gui/AstroBoxGUI/qtzeroconf/avahi-core/announce.c:306-321 | a unique record that must probe counts as registered only after exactly three probes and in an established group |
| `Announcers.Group.NewAnnouncer` | gui/AstroBoxGUI/qtzeroconf/avahi-core/announce.c:231-260 | one announcer per interface, in the initial state its flags and group ask for, and only in a committed group |
| `Announcers.Group.ReturnToInitialState` | gui/AstroBoxGUI/qtzeroconf/avahi-core/announce.c:339-353 | after a conflict the announcer begins anew and is counted again exactly if it probes |
| `Announcers.Group.Reannounce` | gui/AstroBoxGUI/qtzeroconf/avahi-core/announce.c:417-467 | the announcer begins anew in the state reannounce chooses, and the counter follows |
| `Announcers.Group.GoodbyeInterface` | gui/AstroBoxGUI/qtzeroconf/avahi-core/announce.c:494-510 | removing: the announcers of one interface go, the counter stays, and the difference is exactly the number of those that probed |
| `Announcers.Group.Commit` | gui/AstroBoxGUI/qtzeroconf/avahi-core/entry.c:1139-1174 | refused exactly if committed or empty; otherwise registering and published at once, or after the holdoff of 1 s, 20 s from the 15th try on |
| `Announcers.Group.CommitReal` | gui/AstroBoxGUI/qtzeroconf/avahi-core/entry.c:1114-1126 | every live entry is then published on its interfaces by announcers in their initial state; established at once exactly if nobody probes |
| `Announcers.Group.AnnounceGroup` | gui/AstroBoxGUI/qtzeroconf/avahi-core/announce.c:295-304 | every live entry of a committed group gets an announcer on each of its interfaces, in its initial state |
| `Announcers.Group.HoldoffPassed` | gui/AstroBoxGUI/qtzeroconf/avahi-core/entry.c:1128-1137 | when the holdoff has passed the group registers, and is established at once exactly if nobody probes |
| `Announcers.Group.FreeDead` | gui/AstroBoxGUI/qtzeroconf/avahi-core/entry.c:72-97 | freeing a dead entry changes nothing but the list of entries |
| `Announcers.Group.ChangeState` | gui/AstroBoxGUI/qtzeroconf/avahi-core/entry.c:1010-1043 | what each change of state does to the trial counter, the holdoff and the time of establishment |
| `Announcers.Group.AddEntry` | gui/AstroBoxGUI/qtzeroconf/avahi-core/entry.c:185-314 | committed groups are closed to new records; others gain one entry without announcers |
| `Announcers.Group.Reset` | gui/AstroBoxGUI/qtzeroconf/avahi-core/entry.c:1176-1193 | all entries dead, no announcers, the counter at zero |
| `Announcers.Group.Withdraw` | gui/AstroBoxGUI/qtzeroconf/avahi-core/server.c:154-182 | the whole group of a live entry collides: all entries dead, no announcers, the counter at zero; a dead entry changes nothing |
| `ServiceNames.TypesAre` | gui/AstroBoxGUI/qtzeroconf/avahi-common/domain.c:254-272 | a type is valid exactly if each of its labels has three bytes or more and starts with an underscore |
| `ServiceNames.ServiceNameJoin` | gui/AstroBoxGUI/qtzeroconf/avahi-common/domain.c:440-478 | rejects bad parts; otherwise the escaped name, the normal type and the normal domain, cut where the buffer ends |
| `ServiceNames.ServiceNameSplit` | gui/AstroBoxGUI/qtzeroconf/avahi-common/domain.c:496-573 | succeeds exactly when every label can be read and type and domain fit; gives the first label, the labels with an underscore and the rest |
| `ServiceNames.SplitsIntoParts` | gui/AstroBoxGUI/qtzeroconf/avahi-common/domain.c:440-573 | a joined service name can be read exactly if its instance name is UTF-8, and gives back name, normal type and normal domain exactly if the domain does not start with an underscore |
| `ServiceNames.DomainTakenForType` | gui/AstroBoxGUI/qtzeroconf/avahi-common/domain.c:496-573 | a type and a domain that come back as the type alone |
| `ButtonLock.Switch.ButtonIsr` | src/switcher/switcher.cpp:15-29 | the interrupt records time, level and count, all wrapping at 32 bits |
| `ButtonLock.Switch.ButtonLoop` | src/switcher/switcher.cpp:45-172 | one pass of the lock automaton and of the toggle, against the pure step |
| `ButtonLock.UnlockedByGesture` | src/switcher/switcher.cpp:72-141 | over every interleaving and clock wrap: unlocked only after an unbroken press of a second, then an unbroken release of a second, then a press |
| `ButtonLock.GestureUnlocks` | src/switcher/switcher.cpp:72-141 | the gesture unlocks a locked button: a press that passes see for one to two seconds, then a release likewise, then a press that a pass sees |
| `ButtonLock.GestureWorks` | src/switcher/switcher.cpp:15-172 | a gesture from the start that unlocks the button and asks for power |
| `ButtonLock.BrokenGesture` | src/switcher/switcher.cpp:49-141 | what breaks the gesture: an early release, a press or a rest of two seconds, a press too early; and how the button becomes idle again |
| `ButtonLock.TogglesOnlyUnlocked` | src/switcher/switcher.cpp:160-168 | a pass changes the request only while unlocked, with a new press, more than 250 ms after the last release |
| `ButtonLock.TogglesExactly` | src/switcher/switcher.cpp:160-171 | a pass changes the request exactly if it leaves the button unlocked, the button was pressed since the pass before, and was last released more than 250 ms of real time ago |
| `ButtonLock.PressToggles` | src/switcher/switcher.cpp:143-171 | while the button is unlocked every press toggles the request, unless it comes too soon after a release |
| `ButtonLock.PressedSinceLastPass` | src/switcher/switcher.cpp:160-171 | a pass changes the request only if an interrupt read a press since the pass before |
| `ButtonLock.LocksWhenIdle` | src/switcher/switcher.cpp:143-157 | the button locks again only after ten seconds of real time without an interrupt |
| `ButtonLock.LocksExactlyWhenIdle` | src/switcher/switcher.cpp:143-157 | a pass locks the button again exactly if the last press and the last release are ten seconds of real time ago, while 32-bit differences are exact |
| `PowerSequence.Consumers.PowerLoop` | src/switcher/switcher.cpp:174-270 | one pass of the power automaton, against the pure step |
| `PowerSequence.RisesOnlyWithAllOff` | src/switcher/switcher.cpp:198-220 | in every run the main relay rises only after mount, camera and both heaters were commanded off and stayed off |
| `PowerSequence.UpMeansOn` | src/switcher/switcher.cpp:211-266 | in every run the relay is on in all stages between activation and shutdown |
| `PowerSequence.CameraAndMountOn` | src/switcher/switcher.cpp:222-245 | in every run relay, camera and mount are on once the system has come up, and the camera is until it has gone down |
| `PowerSequence.ComesUp` | src/switcher/switcher.cpp:174-270 | a system that is wanted comes up: every stage is left by exactly the passes that find it old enough, in real time, with the pins it commands |
| `PowerSequence.GoesDown` | src/switcher/switcher.cpp:234-266 | a system that is no longer wanted goes down: mount first, relay when the PC draws less than 0.2 A or an hour has passed |
| `PowerSequence.RestsWhenOff` | src/switcher/switcher.cpp:182-196 | while nobody wants the system it rests with everything off and the mount relay closed |
| `PowerSequence.FallsOnlyAfterShutdown` | src/switcher/switcher.cpp:234-266 | once idle and on, the relay falls only after prepare_power_down and then a PC current below 0.2 A or more than an hour of real waiting |

## Left out

- Sockets, interface discovery, the Qt and Bonjour layers, the client libraries, display, WiFi, updates over the air,
  Telegram, JSON and file storage: input and output, or foreign libraries.
- The clock, `millis()`, `rand()` and sensor readings are parameters; times do not decrease where a lemma says so. The
  random jitter is computed in integers, where the source goes through `double`.
- Memory running out, logging, and reference counts: records and keys are immutable values here.
- Callbacks that enter the modelled object again, cache notifications, and the chain of browsers and resolvers.
- Wide-area DNS, the reflector, legacy unicast slots, and the query and response handling of `server.c` apart from
  incoming probes and withdrawal.
- `handle_conflict` in `server.c` beyond its two effects on entries, withdrawal and return to the initial state.
- The index of local entries by key in `entry.c` and the local conflict check: the same chains under the same hash map as in
  the cache, without expiry.
- Publishing with the update flag, which changes the flags of an entry.
- Intrusive linked lists are sequences of objects, apart from the heap of `prioq.c` and the list that `strlst.c` reverses,
  whose pointers are modelled. The chains of the cache are the values of its hash map.
- The hash map is modelled for keys, as the cache uses it; its other users bring their own hash and equality.
- The walk over the cache returns what it visits instead of calling back, so a callback that stops the walk early or
  removes entries is not modelled.
- Text buffers are byte sequences with the room that is left; the bytes after the NUL are not modelled.
- `PrioQueues.PrioQueue.Remove`: the one recursive call of the source, which takes out the last node, is written as that
  half of it.
- `TimeEvents.TimeEventQueue.Expire`: the callback itself is left to the caller, who gets the event that is to run.
- `Packets.Packet.AppendRecord`: record data of 65536 bytes or more trips an assertion of the source; here such a record is
  refused.
- `Packets.Packet.SetField`: the field lies within the packet; the assertion of the source also allows one that lies
  behind the end of a packet of less than 24 bytes.
- `TieBreak.RecordCompare`: generic record data that is empty trips an assertion of the source when it has no bytes
  allocated; here it compares as the empty string.
- `ServiceNames.ServiceNameJoin`: says nothing about the text when a normal form does not fit its buffer of 1014 bytes;
  the buffer may then lack its NUL, and what is read behind its end is not modelled.
- `Announcers.Group.GoodbyeInterface`: only the removing half; the goodbye records that are sent are not modelled.
- `Announcers.Group.FreeDead`: only the group's list of entries; the index by key and the goodbye records are not modelled.
- `Announcers.Group.AddEntry`: the checks of the record and its flags, the conflict check and the update branch are not
  modelled, only the state of the group and the new entry.
- `Announcers.Group.Withdraw`: an entry without a group, which is only marked dead, is not modelled.
- `QuerySchedulers.QueryScheduler.Ask`: requires that a question fits an empty packet, as the source asserts; which records
  the cache offers as known answers is a parameter.
- `Caches.Cache.Elapse`: whether an interested querier asks again at a refresh point is reported, not carried out.
- `PrioQueues.PrioQueue.Put`: the coordinates and the count of nodes are unbounded.
- `TimeVals.AddIsExact`: seconds are unbounded.
- `ButtonLock.Switch.ButtonLoop`: time and button info are read as one sample; an interrupt between the two reads of the
  source is not modelled. The LED is left out.
- `PowerSequence.Consumers.PowerLoop`: the relay writes that Telegram and the update over the air make past this automaton,
  and the charger, are left out.
- Ring buffers, moving averages, battery arithmetic, record lists and the back-off of queriers would only add easy members.
