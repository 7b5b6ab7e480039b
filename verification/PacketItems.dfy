/** Packets as the questions and answers they hold, whatever their header says. */
module PacketItems {
  import opened Bytes
  import opened Records
  import opened NameWire
  import opened RecordWire
  import opened Messages
  import opened Compression
  import opened Packets

  const ZERO_HEADER: Text := [0, 0, 0, 0, 0, 0, 0, 0, 0, 0, 0, 0]

  /** What any series of items looks like in a packet of its own. */
  function ImageOf(items: seq<Item>): Option<Image> {
    WriteItems(items, ZERO_HEADER, map[])
  }

  /** The bytes after the header are exactly those of the items. */
  predicate Carries(d: Text, items: seq<Item>) {
    ImageOf(items).Some? && |d| == |ImageOf(items).value.bytes| && SameBody(ImageOf(items).value.bytes, d)
  }

  ghost predicate Holds(p: Packet, items: seq<Item>)
    reads p, p.data
  {
    && p.Valid() && Carries(p.Contents(), items)
    && p.table == ImageOf(items).value.table && Paid(p.table, p.size)
  }

  lemma {:induction false} WriteItemsAppend(items: seq<Item>, item: Item, d: Text, table: NameTable)
    requires WriteItems(items, d, table).Some?
    ensures var image := WriteItems(items, d, table).value;
            var w := WriteItem(item, |image.bytes|, image.table);
            WriteItems(items + [item], d, table) ==
            if w.None? then None else Some(Image(image.bytes + w.value.bytes, Extended(image.table, w.value)))
    decreases |items|
  {
    hide WriteItem, Extended;
    if items == [] {
      OneItem(item, d, table);
      assert [] + [item] == [item];
    } else {
      var w := WriteItem(items[0], |d|, table).value;
      WriteItemsAppend(items[1..], item, d + w.bytes, Extended(table, w));
      assert (items + [item])[1..] == items[1..] + [item];
    }
  }

  lemma OneItem(item: Item, d: Text, table: NameTable)
    ensures var w := WriteItem(item, |d|, table);
            WriteItems([item], d, table) ==
            if w.None? then None else Some(Image(d + w.value.bytes, Extended(table, w.value)))
  {
    hide WriteItem, Extended;
    assert [item][1..] == [];
  }

  /** A packet of this size has room for the items. */
  predicate HasRoom(items: seq<Item>, size: nat) {
    ImageOf(items).Some? && |ImageOf(items).value.bytes| <= size
  }

  /** One more item has room exactly if it can be appended to a packet that holds the others. */
  lemma RoomForOneMore(p: Packet, items: seq<Item>, item: Item)
    requires Holds(p, items)
    ensures HasRoom(items + [item], p.data.Length) <==> Possible(WriteItem(item, p.size, p.table), p.size, p.data.Length)
  {
    hide WriteItem, Extended, WriteItems;
    WriteItemsAppend(items, item, ZERO_HEADER, map[]);
  }

  /** Bytes appended to a packet that carries the items. */
  lemma CarriesMore(d: Text, items: seq<Item>, item: Item, d': Text)
    requires Carries(d, items)
    requires var w := WriteItem(item, |d|, ImageOf(items).value.table); w.Some? && d' == d + w.value.bytes
    ensures Carries(d', items + [item])
    ensures ImageOf(items + [item]).value.table ==
            Extended(ImageOf(items).value.table, WriteItem(item, |d|, ImageOf(items).value.table).value)
  {
    hide WriteItem, Extended, WriteItems;
    WriteItemsAppend(items, item, ZERO_HEADER, map[]);
    var image, w := ImageOf(items).value, WriteItem(item, |d|, ImageOf(items).value.table).value;
    BodyMore(image.bytes, d, w.bytes);
  }

  lemma BodyMore(a: Text, b: Text, w: Text)
    requires SameBody(a, b) && |a| == |b|
    ensures SameBody(a + w, b + w)
  {
    assert (a + w)[HEADER_SIZE..] == a[HEADER_SIZE..] + w;
    assert (b + w)[HEADER_SIZE..|a + w|] == b[HEADER_SIZE..|a|] + w;
  }

  lemma HeaderApart(d: Text, items: seq<Item>, i: nat, v: uint16)
    requires Carries(d, items) && i + 2 <= HEADER_SIZE
    ensures Carries(WithU16(d, i, v), items)
  {
    hide ImageOf;
    assert WithU16(d, i, v)[HEADER_SIZE..|d|] == d[HEADER_SIZE..|d|];
  }

  /** A fresh packet carries nothing. */
  lemma CarriesNothing(d: Text)
    requires |d| == HEADER_SIZE
    ensures Carries(d, []) && ImageOf([]).value.table == map[]
  {
    assert d[HEADER_SIZE..HEADER_SIZE] == ZERO_HEADER[HEADER_SIZE..];
  }

  method NewPacket(mtu: nat) returns (p: Packet)
    ensures fresh(p) && fresh(p.data) && Holds(p, []) && p.data.Length == Packet.MaxSize(mtu)
    ensures p.Contents() == ZERO_HEADER && p.size == HEADER_SIZE && p.table == map[]
  {
    p := new Packet(mtu);
    CarriesNothing(p.Contents());
    EmptyIsPaid();
  }

  /** avahi_dns_packet_append_record: the packet carries the answer as well, or nothing has changed. */
  method AddAnswer(p: Packet, r: Record, flush: bool, ghost items: seq<Item>) returns (ok: bool)
    requires Holds(p, items)
    modifies p`size, p`table, p.data
    ensures ok <==> Possible(old(WriteRecord(r, flush, 0, p.size, p.table)), old(p.size), p.data.Length)
    ensures ok <==> HasRoom(items + [Answer(r, flush, 0)], p.data.Length)
    ensures Holds(p, if ok then items + [Answer(r, flush, 0)] else items)
    ensures p.Contents()[..HEADER_SIZE] == old(p.Contents()[..HEADER_SIZE])
    ensures if ok then p.size >= old(p.size) + 11 else p.size == old(p.size) && p.table == old(p.table)
  {
    hide WriteRecord, Carries, Paid, Extended, HasRoom;
    ghost var d, table, item := p.Contents(), p.table, Answer(r, flush, 0);
    RoomForOneMore(p, items, item);
    ok := p.AppendRecord(r, flush, 0);
    if ok {
      CarriesMore(d, items, item, p.Contents());
      ItemPaid(item, |d|, table, |d|);
      RecordSize(r, flush, 0, |d|, table);
    }
  }

  lemma RecordSize(r: Record, flush: bool, maxTtl: uint32, at: nat, table: NameTable)
    requires WriteRecord(r, flush, maxTtl, at, table).Some?
    ensures |WriteRecord(r, flush, maxTtl, at, table).value.bytes| >= 11
  {
    hide WriteName, WriteData;
  }

  /** avahi_dns_packet_append_key */
  method AddQuestion(p: Packet, k: Key, unicast: bool, ghost items: seq<Item>) returns (ok: bool)
    requires Holds(p, items)
    modifies p`size, p`table, p.data
    ensures ok <==> Possible(old(WriteKey(k, unicast, p.size, p.table)), old(p.size), p.data.Length)
    ensures ok <==> HasRoom(items + [Question(k, unicast)], p.data.Length)
    ensures Holds(p, if ok then items + [Question(k, unicast)] else items)
    ensures p.Contents()[..HEADER_SIZE] == old(p.Contents()[..HEADER_SIZE])
    ensures if ok then p.size > old(p.size) else p.size == old(p.size) && p.table == old(p.table)
  {
    hide WriteKey, Carries, Paid, Extended, HasRoom;
    ghost var d, table, item := p.Contents(), p.table, Question(k, unicast);
    RoomForOneMore(p, items, item);
    ok := p.AppendKey(k, unicast);
    if ok {
      CarriesMore(d, items, item, p.Contents());
      ItemPaid(item, |d|, table, |d|);
      KeySize(k, unicast, |d|, table);
    }
  }

  lemma KeySize(k: Key, unicast: bool, at: nat, table: NameTable)
    requires WriteKey(k, unicast, at, table).Some?
    ensures |WriteKey(k, unicast, at, table).value.bytes| > 0
  {
    hide WriteName;
  }

  /** avahi_dns_packet_set_field */
  method SetHeader(p: Packet, idx: nat, v: uint16, ghost items: seq<Item>)
    requires Holds(p, items) && idx < 6
    modifies p.data
    ensures Holds(p, items) && p.Contents() == WithU16(old(p.Contents()), 2 * idx, v)
  {
    hide Carries, Paid;
    HeaderApart(p.Contents(), items, 2 * idx, v);
    p.SetField(idx, v);
  }

  ghost predicate AllNormal(items: seq<Item>) {
    forall item :: item in items ==> NormalItem(item)
  }

  /** Between appends every entry of the name table decodes to exactly its key. */
  lemma TableDecodes(p: Packet, items: seq<Item>)
    requires Holds(p, items) && AllNormal(items)
    ensures TableOk(p.Contents(), p.table)
  {
    NoEntries(ZERO_HEADER);
    MessageKeepsTable(items, ZERO_HEADER, map[]);
    TableStable(ImageOf(items).value.bytes, p.Contents(), p.table);
  }

  /** Everything a packet holds reads back in order, up to the end of the packet. */
  lemma HeldItemsReadBack(p: Packet, items: seq<Item>)
    requires Holds(p, items) && forall item :: item in items ==> NormalItem(item) && SmallItem(item)
    ensures ReadItems(p.Contents(), HEADER_SIZE, Kinds(items)) == Some((AllOnWire(items), p.size))
  {
    NoEntries(ZERO_HEADER);
    MessageRoundTrip(items, ZERO_HEADER, map[], p.Contents());
  }

  /** Keys and records that the wire format can hold as they are come back as themselves, in order. */
  lemma HeldItemsComeBack(p: Packet, items: seq<Item>)
    requires Holds(p, items)
    requires forall item :: item in items ==> NormalItem(item) && SmallItem(item) && ExactItem(item)
    ensures var r := ReadItems(p.Contents(), HEADER_SIZE, Kinds(items));
            && r.Some? && |r.value.0| == |items| && r.value.1 == p.size
            && forall i :: 0 <= i < |items| ==> r.value.0[i] == Itself(items[i])
  {
    NoEntries(ZERO_HEADER);
    MessageComesBack(items, ZERO_HEADER, map[], p.Contents());
  }
}
