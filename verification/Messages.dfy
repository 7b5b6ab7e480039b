/** Whole packet bodies: a series of appended keys and records, read back in order. */
module Messages {
  import opened Bytes
  import opened Names
  import opened Records
  import opened NameWire
  import opened RecordWire

  datatype Item =
    | Question(key: Key, unicast: bool)
    | Answer(record: Record, flush: bool, maxTtl: uint32)

  datatype ItemRead =
    | QuestionRead(key: Key, unicast: bool)
    | AnswerRead(record: Record, flush: bool)

  predicate NormalItem(item: Item) {
    match item
    case Question(key, _) => Normal(key.name)
    case Answer(record, _, _) => NormalRecord(record)
  }

  /** Names of at most 63 labels that fit the reader's buffers. */
  predicate SmallItem(item: Item)
    requires NormalItem(item)
  {
    match item
    case Question(key, _) => |Split(key.name).value| <= 63 && |key.name| < KEY_NAME_SIZE
    case Answer(record, _, _) => SmallRecord(record)
  }

  /** What a reader gets for an item. */
  function OnWire(item: Item): ItemRead {
    match item
    case Question(key, unicast) => QuestionRead(KeyOnWire(key), unicast || key.clazz >= HIGH_BIT)
    case Answer(record, flush, maxTtl) => AnswerRead(RecordOnWire(record, maxTtl), flush)
  }

  function WriteItem(item: Item, at: nat, table: NameTable): Option<NameBytes> {
    match item
    case Question(key, unicast) => WriteKey(key, unicast, at, table)
    case Answer(record, flush, maxTtl) => WriteRecord(record, flush, maxTtl, at, table)
  }

  function ReadItem(d: Text, i: nat, question: bool): (r: Option<(ItemRead, nat)>)
    ensures r.Some? ==> i < r.value.1 <= |d|
  {
    if question then
      match ReadKey(d, i)
      case None => None
      case Some(x) => Some((QuestionRead(x.key, x.unicast), x.next))
    else
      match ReadRecord(d, i)
      case None => None
      case Some(x) => Some((AnswerRead(x.record, x.flush), x.next))
  }

  datatype Image = Image(bytes: Text, table: NameTable)

  function WriteItems(items: seq<Item>, d: Text, table: NameTable): (r: Option<Image>)
    ensures r.Some? ==> d <= r.value.bytes
  {
    if items == [] then Some(Image(d, table))
    else
      match WriteItem(items[0], |d|, table)
      case None => None
      case Some(w) => WriteItems(items[1..], d + w.bytes, Extended(table, w))
  }

  function ReadItems(d: Text, i: nat, kinds: seq<bool>): Option<(seq<ItemRead>, nat)>
    decreases |kinds|
  {
    if kinds == [] then Some(([], i))
    else
      match ReadItem(d, i, kinds[0])
      case None => None
      case Some((x, j)) =>
        match ReadItems(d, j, kinds[1..])
        case None => None
        case Some((xs, k)) => Some(([x] + xs, k))
  }

  function Kinds(items: seq<Item>): seq<bool> {
    seq(|items|, i requires 0 <= i < |items| => items[i].Question?)
  }

  function AllOnWire(items: seq<Item>): seq<ItemRead> {
    seq(|items|, i requires 0 <= i < |items| => OnWire(items[i]))
  }

  lemma QuestionRoundTrip(d: Text, key: Key, unicast: bool, table: NameTable, d': Text, e: Text)
    requires |d| >= HEADER_SIZE && TableOk(d, table) && Normal(key.name) && SmallItem(Question(key, unicast))
    requires WriteKey(key, unicast, |d|, table).Some?
    requires d' == d + WriteKey(key, unicast, |d|, table).value.bytes && SameBody(d', e)
    ensures var r := ReadItem(e, |d|, true);
            r.Some? && r.value.0 == OnWire(Question(key, unicast)) && r.value.1 == |d'|
  {
    KeyRoundTrip(d, key, unicast, table, e);
  }

  lemma AnswerRoundTrip(d: Text, record: Record, flush: bool, maxTtl: uint32, table: NameTable, d': Text, e: Text)
    requires |d| >= HEADER_SIZE && TableOk(d, table) && NormalRecord(record) && SmallRecord(record)
    requires WriteRecord(record, flush, maxTtl, |d|, table).Some?
    requires d' == d + WriteRecord(record, flush, maxTtl, |d|, table).value.bytes && SameBody(d', e)
    ensures var r := ReadItem(e, |d|, false);
            r.Some? && r.value.0 == OnWire(Answer(record, flush, maxTtl)) && r.value.1 == |d'|
  {
    RecordRoundTrip(d, record, flush, maxTtl, table, e);
  }

  lemma ItemRoundTrip(d: Text, item: Item, table: NameTable, d': Text, e: Text)
    requires |d| >= HEADER_SIZE && TableOk(d, table) && NormalItem(item) && SmallItem(item)
    requires WriteItem(item, |d|, table).Some?
    requires d' == d + WriteItem(item, |d|, table).value.bytes && SameBody(d', e)
    ensures var r := ReadItem(e, |d|, item.Question?);
            r.Some? && r.value.0 == OnWire(item) && r.value.1 == |d'|
  {
    match item
    case Question(key, unicast) => QuestionRoundTrip(d, key, unicast, table, d', e);
    case Answer(record, flush, maxTtl) => AnswerRoundTrip(d, record, flush, maxTtl, table, d', e);
  }

  lemma ReadItemsStep(e: Text, i: nat, kinds: seq<bool>, x: ItemRead, j: nat, xs: seq<ItemRead>, k: nat)
    requires kinds != []
    requires var r := ReadItem(e, i, kinds[0]); r.Some? && r.value.0 == x && r.value.1 == j
    requires ReadItems(e, j, kinds[1..]) == Some((xs, k))
    ensures ReadItems(e, i, kinds) == Some(([x] + xs, k))
  {
  }

  lemma ItemKeepsTable(d: Text, item: Item, table: NameTable)
    requires |d| >= HEADER_SIZE && TableOk(d, table) && NormalItem(item)
    requires WriteItem(item, |d|, table).Some?
    ensures var w := WriteItem(item, |d|, table).value; TableOk(d + w.bytes, Extended(table, w))
  {
    match item
    case Question(key, unicast) => KeyKeepsTable(d, key, unicast, table);
    case Answer(record, flush, maxTtl) => RecordKeepsTable(d, record, flush, maxTtl, table);
  }

  lemma PrefixIsBody(d: Text, e: Text, f: Text)
    requires |d| >= HEADER_SIZE && d <= e && SameBody(e, f)
    ensures SameBody(d, f)
  {
    SameBodyAt(e, f, HEADER_SIZE, |d|);
    assert d[HEADER_SIZE..] == e[HEADER_SIZE..|d|];
  }

  /**
   Any series of appended questions and answers reads back in order, whichever suffixes were
   compressed, from any packet with the same body: the header may have changed since.
   */
  lemma {:induction false} MessageRoundTrip(items: seq<Item>, d: Text, table: NameTable, e: Text)
    requires |d| >= HEADER_SIZE && TableOk(d, table)
    requires forall item :: item in items ==> NormalItem(item) && SmallItem(item)
    requires WriteItems(items, d, table).Some? && SameBody(WriteItems(items, d, table).value.bytes, e)
    ensures ReadItems(e, |d|, Kinds(items)) ==
            Some((AllOnWire(items), |WriteItems(items, d, table).value.bytes|))
    decreases |items|
  {
    if items != [] {
      var item := items[0];
      assert item in items;
      var w := WriteItem(item, |d|, table).value;
      var d', table' := d + w.bytes, Extended(table, w);
      var end := |WriteItems(items[1..], d', table').value.bytes|;
      FirstItem(items, d, table, d', e);
      ItemKeepsTable(d, item, table);
      MessageRoundTrip(items[1..], d', table', e);
      ReadItemsStep(e, |d|, Kinds(items), OnWire(item), |d'|, AllOnWire(items[1..]), end);
    } else {
      assert AllOnWire(items) == [];
    }
  }

  /** Nothing in the item is changed by the wire format, a TTL above the cap apart. */
  predicate ExactItem(item: Item) {
    match item
    case Question(key, _) => key.clazz < 0x8000
    case Answer(record, _, _) => ExactRecord(record) && record.ttl != 0xFFFF_FFFF
  }

  /** The item itself, as a reader sees it. */
  function Itself(item: Item): ItemRead {
    match item
    case Question(key, unicast) => QuestionRead(key, unicast)
    case Answer(record, flush, maxTtl) =>
      AnswerRead(if 0 < maxTtl < record.ttl then record.(ttl := maxTtl) else record, flush)
  }

  lemma ExactOnWire(item: Item)
    requires ExactItem(item)
    ensures OnWire(item) == Itself(item)
  {
    if item.Answer? {
      ExactDataKept(item.record.data);
    }
  }

  /** Exact items come back as themselves: the same keys and records, in order. */
  lemma MessageComesBack(items: seq<Item>, d: Text, table: NameTable, e: Text)
    requires |d| >= HEADER_SIZE && TableOk(d, table)
    requires forall item :: item in items ==> NormalItem(item) && SmallItem(item) && ExactItem(item)
    requires WriteItems(items, d, table).Some? && SameBody(WriteItems(items, d, table).value.bytes, e)
    ensures var r := ReadItems(e, |d|, Kinds(items));
            && r.Some? && |r.value.0| == |items| && r.value.1 == |WriteItems(items, d, table).value.bytes|
            && forall i :: 0 <= i < |items| ==> r.value.0[i] == Itself(items[i])
  {
    hide NormalItem, SmallItem, ExactItem, OnWire, Itself, WriteItems, ReadItems;
    MessageRoundTrip(items, d, table, e);
    forall i | 0 <= i < |items|
      ensures AllOnWire(items)[i] == Itself(items[i])
    {
      assert items[i] in items;
      ExactOnWire(items[i]);
    }
  }

  /** The first item reads back, and the rest of the message follows it. */
  lemma FirstItem(items: seq<Item>, d: Text, table: NameTable, d': Text, e: Text)
    requires |d| >= HEADER_SIZE && TableOk(d, table) && items != [] && NormalItem(items[0]) && SmallItem(items[0])
    requires WriteItems(items, d, table).Some? && SameBody(WriteItems(items, d, table).value.bytes, e)
    requires d' == d + WriteItem(items[0], |d|, table).value.bytes
    ensures var r := ReadItem(e, |d|, items[0].Question?);
            r.Some? && r.value.0 == OnWire(items[0]) && r.value.1 == |d'|
    ensures Kinds(items)[0] == items[0].Question? && Kinds(items)[1..] == Kinds(items[1..])
    ensures AllOnWire(items) == [OnWire(items[0])] + AllOnWire(items[1..])
  {
    hide WriteItem, ReadItem, OnWire, TableOk, NormalItem, SmallItem, SameBody;
    PrefixIsBody(d', WriteItems(items, d, table).value.bytes, e);
    ItemRoundTrip(d, items[0], table, d', e);
  }

  /** Between appends every table entry decodes to exactly its key. */
  lemma {:induction false} MessageKeepsTable(items: seq<Item>, d: Text, table: NameTable)
    requires |d| >= HEADER_SIZE && TableOk(d, table)
    requires forall item :: item in items ==> NormalItem(item)
    requires WriteItems(items, d, table).Some?
    ensures TableOk(WriteItems(items, d, table).value.bytes, WriteItems(items, d, table).value.table)
    decreases |items|
  {
    if items != [] {
      assert items[0] in items;
      ItemKeepsTable(d, items[0], table);
      var w := WriteItem(items[0], |d|, table).value;
      MessageKeepsTable(items[1..], d + w.bytes, Extended(table, w));
    }
  }
}
