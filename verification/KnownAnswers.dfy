/** The multi-packet train of known answers (section 7.2 of RFC 6762). */
module KnownAnswers {
  import opened Bytes
  import opened Lists
  import opened Records
  import opened NameWire
  import opened RecordWire
  import opened Messages
  import opened Compression
  import opened Packets
  import opened PacketItems

  /** The record fits a packet that holds nothing else. */
  predicate FitsEmpty(r: Record, mtu: nat) {
    Possible(WriteRecord(r, false, 0, HEADER_SIZE, map[]), HEADER_SIZE, Packet.MaxSize(mtu))
  }

  function Sendable(records: seq<Record>, mtu: nat): seq<Record> {
    Filter(records, (r: Record) => FitsEmpty(r, mtu))
  }

  lemma SendableStep(r: Record, records: seq<Record>, mtu: nat)
    ensures Sendable([r] + records, mtu) == if FitsEmpty(r, mtu) then [r] + Sendable(records, mtu) else Sendable(records, mtu)
  {
    FilterPrepend(r, records, (x: Record) => FitsEmpty(x, mtu));
  }

  function Answers(records: seq<Record>): seq<Item> {
    seq(|records|, i requires 0 <= i < |records| => Answer(records[i], false, 0))
  }

  function Flatten(batches: seq<seq<Record>>): seq<Record> {
    if batches == [] then [] else Flatten(batches[..|batches| - 1]) + batches[|batches| - 1]
  }

  lemma FlattenMore(batches: seq<seq<Record>>, batch: seq<Record>)
    ensures Flatten(batches + [batch]) == Flatten(batches) + batch
  {
    assert (batches + [batch])[..|batches|] == batches;
  }

  /** The flags of a packet: bytes 2 and 3 of its header (section 4.1.1 of RFC 1035). */
  function Flags(d: Text): nat
    requires |d| >= HEADER_SIZE
  {
    ReadU16(d, 2)
  }

  /** What one packet of the train looks like: its questions and answers, their counts, and whether more packets follow. */
  predicate Sent(d: Text, questions: seq<Item>, batch: seq<Record>, more: bool) {
    && Carries(d, questions + Answers(batch))
    && |d| >= HEADER_SIZE && Flags(d) == (if more then 0x200 else 0)
    && ReadU16(d, 4) == |questions| % 0x1_0000 && ReadU16(d, 6) == |batch| % 0x1_0000
    && |d| >= HEADER_SIZE + 11 * |batch|
  }

  lemma OneMoreAnswer(questions: seq<Item>, batch: seq<Record>, r: Record)
    ensures questions + Answers(batch) + [Answer(r, false, 0)] == questions + Answers(batch + [r])
  {
  }

  /** The packet is complete: its answers are counted, and the truncation bit is set if more packets follow. */
  method Complete(p: Packet, n: nat, more: bool, ghost questions: seq<Item>, ghost batch: seq<Record>) returns (d: Text)
    requires Holds(p, questions + Answers(batch)) && n == |batch| && p.size >= HEADER_SIZE + 11 * n
    requires Flags(p.Contents()) == 0 && ReadU16(p.Contents(), 2 * FIELD_QDCOUNT) == |questions| % 0x1_0000
    modifies p.data
    ensures Sent(d, questions, batch, more) && |d| <= p.data.Length
  {
    hide Carries, ImageOf, Paid, ReadU16, WithU16;
    ghost var items := questions + Answers(batch);
    var flags := p.GetField(FIELD_FLAGS);
    assert flags == ReadU16(p.Contents(), 2 * FIELD_FLAGS);
    if more {
      U16Back(p.Contents(), 2 * FIELD_FLAGS, flags + FLAG_TC, 2 * FIELD_FLAGS);
      U16Back(p.Contents(), 2 * FIELD_FLAGS, flags + FLAG_TC, 2 * FIELD_QDCOUNT);
      SetHeader(p, FIELD_FLAGS, flags + FLAG_TC, items);
    }
    U16Back(p.Contents(), 2 * FIELD_ANCOUNT, n % 0x1_0000, 2 * FIELD_FLAGS);
    U16Back(p.Contents(), 2 * FIELD_ANCOUNT, n % 0x1_0000, 2 * FIELD_QDCOUNT);
    U16Back(p.Contents(), 2 * FIELD_ANCOUNT, n % 0x1_0000, 2 * FIELD_ANCOUNT);
    SetHeader(p, FIELD_ANCOUNT, n % 0x1_0000, items);
    d := p.data[..p.size];
  }

  /** What the packet that is being filled starts with. */
  function Leading(questions: seq<Item>, sent: seq<Text>): seq<Item> {
    if sent == [] then questions else []
  }

  /** The packet that is being filled. */
  ghost predicate Filling(p: Packet, n: nat, mtu: nat, leading: seq<Item>, batch: seq<Record>)
    reads p, p.data
  {
    && Holds(p, leading + Answers(batch)) && n == |batch| && p.size >= HEADER_SIZE + 11 * n
    && Flags(p.Contents()) == 0 && p.data.Length == Packet.MaxSize(mtu)
    && ReadU16(p.Contents(), 2 * FIELD_QDCOUNT) == |leading| % 0x1_0000
  }

  /** The packets sent so far, all of which announce another one. */
  predicate Train(sent: seq<Text>, questions: seq<Item>, batches: seq<seq<Record>>, mtu: nat) {
    && |sent| == |batches|
    && forall k :: 0 <= k < |sent| ==>
         Sent(sent[k], if k == 0 then questions else [], batches[k], true) && |sent[k]| <= Packet.MaxSize(mtu)
  }

  /** The packet has no room for the record besides what it holds. */
  predicate ClosedBy(leading: seq<Item>, batch: seq<Record>, r: Record, mtu: nat) {
    !HasRoom(leading + Answers(batch + [r]), Packet.MaxSize(mtu))
  }

  /** Every packet of the train was closed by a known answer that had no room in it. */
  ghost predicate Packed(questions: seq<Item>, batches: seq<seq<Record>>, known: seq<Record>, mtu: nat) {
    forall k :: 0 <= k < |batches| ==>
      exists r :: r in known && ClosedBy(if k == 0 then questions else [], batches[k], r, mtu)
  }

  lemma PackedMore(questions: seq<Item>, batches: seq<seq<Record>>, known: seq<Record>, mtu: nat, batch: seq<Record>, r: Record)
    requires Packed(questions, batches, known, mtu) && r in known
    requires ClosedBy(if batches == [] then questions else [], batch, r, mtu)
    ensures Packed(questions, batches + [batch], known, mtu)
  {
    hide ClosedBy;
  }

  lemma TrainGrows(sent: seq<Text>, questions: seq<Item>, batches: seq<seq<Record>>, mtu: nat, d: Text, batch: seq<Record>)
    requires Train(sent, questions, batches, mtu)
    requires Sent(d, Leading(questions, sent), batch, true) && |d| <= Packet.MaxSize(mtu)
    ensures Train(sent + [d], questions, batches + [batch], mtu)
  {
    hide Sent;
  }

  /** A record that does not fit an empty packet does not fit a packet in use either. */
  lemma NoRoomAnywhere(r: Record, mtu: nat, size: nat, table: NameTable)
    requires ValidRecord(r) && Paid(table, size)
    requires Possible(WriteRecord(r, false, 0, size, table), size, Packet.MaxSize(mtu))
    ensures FitsEmpty(r, mtu)
  {
    hide WriteRecord, Paid;
    RecordFits(r, false, 0, size, table);
  }

  /** An empty packet has an empty table. */
  lemma NoItems(items: seq<Item>, d: Text)
    requires Carries(d, items) && |d| == HEADER_SIZE
    ensures ImageOf(items).value.table == map[]
  {
    if items != [] {
      ItemsTakeSpace(items);
    }
  }

  lemma ItemsTakeSpace(items: seq<Item>)
    requires items != [] && ImageOf(items).Some?
    ensures |ImageOf(items).value.bytes| > HEADER_SIZE
  {
    var w := WriteItem(items[0], HEADER_SIZE, map[]).value;
    ItemSize(items[0], HEADER_SIZE, map[]);
    assert ZERO_HEADER + w.bytes <= ImageOf(items).value.bytes;
  }

  lemma ItemSize(item: Item, at: nat, table: NameTable)
    requires WriteItem(item, at, table).Some?
    ensures |WriteItem(item, at, table).value.bytes| > 0
  {
    match item
    case Question(key, unicast) => KeySize(key, unicast, at, table);
    case Answer(r, flush, maxTtl) => RecordSize(r, flush, maxTtl, at, table);
  }

  /** One try to append a known answer to the packet that is being filled. */
  method Try(p: Packet, r: Record, n: nat, mtu: nat, ghost leading: seq<Item>, ghost batch: seq<Record>) returns (ok: bool)
    requires Filling(p, n, mtu, leading, batch) && ValidRecord(r)
    modifies p, p.data
    ensures ok ==> FitsEmpty(r, mtu) && Filling(p, n + 1, mtu, leading, batch + [r])
    ensures !ok ==> Filling(p, n, mtu, leading, batch)
    ensures !ok && p.size <= HEADER_SIZE ==> !FitsEmpty(r, mtu)
    ensures !ok ==> p.size == old(p.size) && ClosedBy(leading, batch, r, mtu)
  {
    hide Carries, ImageOf, Paid, WriteRecord, Possible, ReadU16, ValidRecord, HasRoom;
    ghost var items, size, table := leading + Answers(batch), p.size, p.table;
    if size == HEADER_SIZE {
      NoItems(items, p.Contents());
    }
    OneMoreAnswer(leading, batch, r);
    ok := AddAnswer(p, r, false, items);
    HeaderKept(old(p.Contents()), p.Contents());
    if ok {
      NoRoomAnywhere(r, mtu, size, table);
    }
  }

  lemma HeaderKept(d: Text, e: Text)
    requires |d| >= HEADER_SIZE && |e| >= HEADER_SIZE && d[..HEADER_SIZE] == e[..HEADER_SIZE]
    ensures Flags(d) == Flags(e)
    ensures ReadU16(d, 2 * FIELD_QDCOUNT) == ReadU16(e, 2 * FIELD_QDCOUNT)
  {
    SameField(d, e, 2 * FIELD_FLAGS);
    SameField(d, e, 2 * FIELD_QDCOUNT);
  }

  lemma SameField(d: Text, e: Text, i: nat)
    requires |d| >= HEADER_SIZE && |e| >= HEADER_SIZE && d[..HEADER_SIZE] == e[..HEADER_SIZE] && i + 2 <= HEADER_SIZE
    ensures ReadU16(d, i) == ReadU16(e, i)
  {
    assert d[i] == d[..HEADER_SIZE][i] && e[i] == e[..HEADER_SIZE][i];
    assert d[i + 1] == d[..HEADER_SIZE][i + 1] && e[i + 1] == e[..HEADER_SIZE][i + 1];
  }

  /**
   One known answer: it goes into the packet that is being filled, or that one is sent with the truncation bit and
   it goes into the next one, unless it does not even fit there.
   */
  method Place(p0: Packet, r: Record, n0: nat, mtu: nat, sent0: seq<Text>, ghost questions: seq<Item>,
               ghost batches0: seq<seq<Record>>, ghost batch0: seq<Record>)
    returns (p: Packet, n: nat, sent: seq<Text>, ghost batches: seq<seq<Record>>, ghost batch: seq<Record>)
    requires Train(sent0, questions, batches0, mtu) && Filling(p0, n0, mtu, Leading(questions, sent0), batch0) && ValidRecord(r)
    modifies p0, p0.data
    ensures Train(sent, questions, batches, mtu) && Filling(p, n, mtu, Leading(questions, sent), batch)
    ensures Flatten(batches) + batch == Flatten(batches0) + batch0 + (if FitsEmpty(r, mtu) then [r] else [])
    ensures p == p0 || (fresh(p) && fresh(p.data))
    ensures batches == batches0 ||
            (batches == batches0 + [batch0] && ClosedBy(Leading(questions, sent0), batch0, r, mtu))
  {
    hide Filling, Sent, Train, Flatten, FitsEmpty, Flags, ClosedBy;
    p, n, sent, batches, batch := p0, n0, sent0, batches0, batch0;
    var tooLarge := false;
    var ok := Try(p, r, n, mtu, Leading(questions, sent), batch);
    while !ok
      invariant Train(sent, questions, batches, mtu)
      invariant Flatten(batches) + batch == Flatten(batches0) + batch0
      invariant p == p0 || (fresh(p) && fresh(p.data))
      invariant if ok then FitsEmpty(r, mtu) && Filling(p, n + 1, mtu, Leading(questions, sent), batch + [r])
                else Filling(p, n, mtu, Leading(questions, sent), batch)
      invariant !ok && p.size <= HEADER_SIZE ==> !FitsEmpty(r, mtu)
      invariant !tooLarge
      invariant if batches == batches0 then
                  sent == sent0 && batch == batch0 && (ok || ClosedBy(Leading(questions, sent0), batch0, r, mtu))
                else p.size <= HEADER_SIZE || ok
      invariant batches == batches0 ||
                (batches == batches0 + [batch0] && ClosedBy(Leading(questions, sent0), batch0, r, mtu))
      decreases if ok then 0 else if p.size > HEADER_SIZE then 2 else 1
    {
      if p.size <= HEADER_SIZE {
        tooLarge := true;
        break;
      }
      var d := Send(p, n, mtu, true, Leading(questions, sent), batch);
      TrainGrows(sent, questions, batches, mtu, d, batch);
      FlattenMore(batches, batch);
      sent, batches, batch := sent + [d], batches + [batch], [];
      p := NextPacket(mtu);
      n := 0;
      assert Flatten(batches) + [] == Flatten(batches);
      ok := Try(p, r, n, mtu, [], batch);
    }
    if !tooLarge {
      Assoc(Flatten(batches), batch, [r]);
      n, batch := n + 1, batch + [r];
    }
  }

  /** The packet that is being filled is sent. */
  method Send(p: Packet, n: nat, mtu: nat, more: bool, ghost leading: seq<Item>, ghost batch: seq<Record>) returns (d: Text)
    requires Filling(p, n, mtu, leading, batch)
    modifies p.data
    ensures Sent(d, leading, batch, more) && |d| <= Packet.MaxSize(mtu)
  {
    hide Holds, Sent, Flags;
    d := Complete(p, n, more, leading, batch);
  }

  lemma StartsFilling(p: Packet, mtu: nat, questions: seq<Item>)
    requires Holds(p, questions) && p.data.Length == Packet.MaxSize(mtu) && Flags(p.Contents()) == 0
    requires ReadU16(p.Contents(), 2 * FIELD_QDCOUNT) == |questions| % 0x1_0000
    ensures Filling(p, 0, mtu, questions, []) && Train([], questions, [], mtu)
    ensures Flatten([]) + [] + Sendable([], mtu) == []
  {
    hide Carries, ImageOf, Paid;
    assert questions + Answers([]) == questions;
  }

  lemma NothingSendable(records: seq<Record>, mtu: nat)
    requires records == []
    ensures Sendable(records, mtu) == []
  {
  }

  method NextPacket(mtu: nat) returns (p: Packet)
    ensures fresh(p) && fresh(p.data) && Filling(p, 0, mtu, [], [])
    ensures p.size == HEADER_SIZE
  {
    hide Carries, ImageOf, Paid;
    p := NewPacket(mtu);
    assert [] + Answers([]) == [];
    assert ReadU16(ZERO_HEADER, 2 * FIELD_FLAGS) == 0 == ReadU16(ZERO_HEADER, 2 * FIELD_QDCOUNT);
  }

  /**
   append_known_answers_and_send: it terminates, the answers of all packets in order are exactly the known answers
   that fit an empty packet, each packet counts its answers, and all but the last announce another one and were closed
   by an answer that had no room in them.
   */
  method SendKnownAnswers(known: seq<Record>, first: Packet, mtu: nat, ghost questions: seq<Item>)
    returns (sent: seq<Text>, ghost batches: seq<seq<Record>>)
    requires Holds(first, questions) && first.data.Length == Packet.MaxSize(mtu) && Flags(first.Contents()) == 0
    requires ReadU16(first.Contents(), 2 * FIELD_QDCOUNT) == |questions| % 0x1_0000
    requires forall r :: r in known ==> ValidRecord(r)
    modifies first, first.data
    ensures |sent| == |batches| >= 1
    ensures Flatten(batches) == Sendable(known, mtu)
    ensures Packed(questions, batches[..|batches| - 1], known, mtu)
    ensures forall k :: 0 <= k < |sent| ==> |sent[k]| <= Packet.MaxSize(mtu)
    ensures forall k :: 0 <= k < |sent| ==>
              Sent(sent[k], if k == 0 then questions else [], batches[k], k < |sent| - 1)
  {
    hide Filling, Sent, Flatten, FitsEmpty, ValidRecord, Sendable, ClosedBy, Packed, Holds, Flags;
    var p, n, i := first, 0, 0;
    ghost var batch: seq<Record> := [];
    sent, batches := [], [];
    assert known[0..] == known;
    StartsFilling(first, mtu, questions);
    NonePacked(questions, known, mtu);
    while i < |known|
      invariant 0 <= i <= |known|
      invariant Train(sent, questions, batches, mtu) && Filling(p, n, mtu, Leading(questions, sent), batch)
      invariant Flatten(batches) + batch + Sendable(known[i..], mtu) == Sendable(known, mtu)
      invariant p == first || (fresh(p) && fresh(p.data))
      invariant Packed(questions, batches, known, mtu)
    {
      ghost var done, r := Flatten(batches) + batch, known[i];
      ghost var before, closed := batches, batch;
      assert known[i..] == [r] + known[i + 1..];
      SendableStep(r, known[i + 1..], mtu);
      p, n, sent, batches, batch := Place(p, known[i], n, mtu, sent, questions, batches, batch);
      Assoc(done, [r], Sendable(known[i + 1..], mtu));
      if batches != before {
        PackedMore(questions, before, known, mtu, closed, r);
      }
      i := i + 1;
    }
    NothingSendable(known[i..], mtu);
    assert Flatten(batches) + batch + [] == Flatten(batches) + batch;
    var d := Send(p, n, mtu, false, Leading(questions, sent), batch);
    FlattenMore(batches, batch);
    assert (batches + [batch])[..|batches|] == batches;
    sent, batches := sent + [d], batches + [batch];
  }

  lemma NonePacked(questions: seq<Item>, known: seq<Record>, mtu: nat)
    ensures Packed(questions, [], known, mtu)
  {
  }
}
