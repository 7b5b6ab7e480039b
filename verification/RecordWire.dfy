/** Keys and records on the wire, as functions of the packet contents, and their round trips. */
module RecordWire {
  import opened Bytes
  import opened Names
  import opened StringLists
  import opened Records
  import opened NameWire

  const KEY_NAME_SIZE := 256
  const HIGH_BIT := 0x8000
  const RECORD_HEADER_SIZE := 10

  function After(b: Text, w: Option<NameBytes>): Option<NameBytes> {
    match w
    case None => None
    case Some(x) => Some(NameBytes(b + x.bytes, x.entries))
  }

  function Followed(w: Option<NameBytes>, b: Text): Option<NameBytes> {
    match w
    case None => None
    case Some(x) => Some(NameBytes(x.bytes + b, x.entries))
  }

  function HighBitSet(v: uint16): uint16 {
    if v >= HIGH_BIT then v else v + HIGH_BIT
  }

  function HighBitClear(v: uint16): uint16 {
    v % HIGH_BIT
  }

  // ---------- Writing ----------

  function KeyFields(k: Key, unicast: bool): (r: Text)
    ensures |r| == 4
  {
    U16(k.rtype) + U16(if unicast then HighBitSet(k.clazz) else k.clazz)
  }

  /** avahi_dns_packet_append_key */
  function WriteKey(k: Key, unicast: bool, at: nat, table: NameTable): Option<NameBytes> {
    Followed(WriteName(k.name, at, table), KeyFields(k, unicast))
  }

  /** avahi_dns_packet_append_string */
  function CountedString(s: Text): (r: Text)
    ensures |r| == 1 + |Clip(s)|
  {
    [|Clip(s)|] + Clip(s)
  }

  function SrvFields(p: uint16, w: uint16, o: uint16): (r: Text)
    ensures |r| == 6
  {
    U16(p) + U16(w) + U16(o)
  }

  /** append_rdata */
  function WriteData(data: Rdata, at: nat, table: NameTable): Option<NameBytes> {
    match data
    case NameData(target) => WriteName(target, at, table)
    case SrvData(p, w, o, target) => After(SrvFields(p, w, o), WriteName(target, at + 6, table))
    case HinfoData(cpu, os) => Some(NameBytes(CountedString(cpu) + CountedString(os), map[]))
    case TxtData(strings) => Some(NameBytes(Serialized(strings), map[]))
    case AData(address) => Some(NameBytes(address, map[]))
    case AaaaData(address) => Some(NameBytes(address, map[]))
    case GenericData(data) => Some(NameBytes(data, map[]))
  }

  function WireTtl(ttl: uint32, maxTtl: uint32): uint32 {
    if maxTtl != 0 && ttl > maxTtl then maxTtl else ttl
  }

  function RecordHeader(rtype: uint16, clazz: uint16, ttl: uint32, length: uint16): (r: Text)
    ensures |r| == RECORD_HEADER_SIZE
  {
    U16(rtype) + U16(clazz) + U32(ttl) + U16(length)
  }

  function HeaderOf(r: Record, flush: bool, maxTtl: uint32, length: uint16): (h: Text)
    ensures |h| == RECORD_HEADER_SIZE
  {
    RecordHeader(r.key.rtype, if flush then HighBitSet(r.key.clazz) else HighBitClear(r.key.clazz),
                 WireTtl(r.ttl, maxTtl), length)
  }

  /** The table and the offset that append_rdata starts from. */
  function DataTable(w: NameBytes, table: NameTable): NameTable {
    Extended(table, w)
  }

  function WholeRecord(r: Record, flush: bool, maxTtl: uint32, name: NameBytes, data: NameBytes): NameBytes
    requires |data.bytes| < 0x1_0000
  {
    NameBytes(name.bytes + (HeaderOf(r, flush, maxTtl, |data.bytes|) + data.bytes), data.entries + name.entries)
  }

  /**
   avahi_dns_packet_append_record. Record data of 65536 bytes or more would trip the source's
   assertion on its length; here such a record is not written.
   */
  function WriteRecord(r: Record, flush: bool, maxTtl: uint32, at: nat, table: NameTable): Option<NameBytes> {
    match WriteName(r.key.name, at, table)
    case None => None
    case Some(w) =>
      match WriteData(r.data, at + |w.bytes| + RECORD_HEADER_SIZE, DataTable(w, table))
      case None => None
      case Some(x) =>
        if |x.bytes| >= 0x1_0000 then None else Some(WholeRecord(r, flush, maxTtl, w, x))
  }

  // ---------- Reading ----------

  datatype KeyRead = KeyRead(key: Key, unicast: bool, next: nat)
  datatype RecordRead = RecordRead(record: Record, flush: bool, next: nat)
  datatype DataRead = DataRead(data: Rdata, next: nat)

  /** avahi_dns_packet_consume_key */
  function ReadKey(d: Text, i: nat): (r: Option<KeyRead>)
    ensures r.Some? ==> i < r.value.next <= |d|
  {
    match ReadName(d, i, KEY_NAME_SIZE)
    case None => None
    case Some((text, used)) =>
      var j := i + used;
      if j + 4 > |d| then None
      else
        var clazz := ReadU16(d, j + 2);
        match NormalForm(text)
        case None => None
        case Some(name) => Some(KeyRead(Key(name, HighBitClear(clazz), ReadU16(d, j)), clazz >= HIGH_BIT, j + 4))
  }

  /** avahi_dns_packet_consume_string into a buffer that is long enough. */
  function ReadString(d: Text, i: nat): (r: Option<(Text, nat)>)
    ensures r.Some? ==> i < r.value.1 <= |d|
  {
    if i >= |d| || i + 1 + d[i] > |d| then None
    else Some((CString(d[i + 1..i + 1 + d[i]]), i + 1 + d[i]))
  }

  function NameDataRead(d: Text, i: nat): (r: Option<DataRead>)
    ensures r.Some? ==> i <= r.value.next <= |d|
  {
    match ReadName(d, i, DOMAIN_NAME_MAX)
    case None => None
    case Some((text, used)) => Some(DataRead(NameData(text), i + used))
  }

  function SrvDataRead(d: Text, i: nat): (r: Option<DataRead>)
    ensures r.Some? ==> i <= r.value.next <= |d|
  {
    if i + 6 > |d| then None
    else
      match ReadName(d, i + 6, DOMAIN_NAME_MAX)
      case None => None
      case Some((text, used)) =>
        Some(DataRead(SrvData(ReadU16(d, i), ReadU16(d, i + 2), ReadU16(d, i + 4), text), i + 6 + used))
  }

  function HinfoDataRead(d: Text, i: nat): (r: Option<DataRead>)
    ensures r.Some? ==> i <= r.value.next <= |d|
  {
    match ReadString(d, i)
    case None => None
    case Some((cpu, j)) =>
      match ReadString(d, j)
      case None => None
      case Some((os, k)) => Some(DataRead(HinfoData(cpu, os), k))
  }

  /** parse_rdata before its final length check; the caller has made sure `length` bytes are there. */
  function ReadData(d: Text, i: nat, rtype: uint16, length: nat): (r: Option<DataRead>)
    requires i + length <= |d|
    ensures r.Some? ==> i <= r.value.next <= |d|
  {
    var bytes := d[i..i + length];
    if NameType(rtype) then NameDataRead(d, i)
    else if rtype == TYPE_SRV then SrvDataRead(d, i)
    else if rtype == TYPE_HINFO then HinfoDataRead(d, i)
    else if rtype == TYPE_TXT then
      match Parsed(bytes, [])
      case None => None
      case Some(strings) => Some(DataRead(TxtData(strings), i + length))
    else if rtype == TYPE_A then
      if i + 4 > |d| then None else Some(DataRead(AData(d[i..i + 4]), i + 4))
    else if rtype == TYPE_AAAA then
      if i + 16 > |d| then None else Some(DataRead(AaaaData(d[i..i + 16]), i + 16))
    else Some(DataRead(GenericData(bytes), i + length))
  }

  function StoredTtl(ttl: uint32): uint32 {
    if ttl == 0xFFFF_FFFF then DEFAULT_TTL else ttl
  }

  /** avahi_dns_packet_consume_record */
  function ReadRecord(d: Text, i: nat): (r: Option<RecordRead>)
    ensures r.Some? ==> i < r.value.next <= |d|
  {
    match ReadName(d, i, DOMAIN_NAME_MAX)
    case None => None
    case Some((text, used)) =>
      var j := i + used;
      if j + RECORD_HEADER_SIZE > |d| then None
      else RecordAfterName(d, j, text)
  }

  datatype Header = Header(rtype: uint16, clazz: uint16, ttl: uint32, length: uint16)

  function ReadHeader(d: Text, j: nat): Header
    requires j + RECORD_HEADER_SIZE <= |d|
  {
    Header(ReadU16(d, j), ReadU16(d, j + 2), ReadU32(d, j + 4), ReadU16(d, j + 8))
  }

  function RecordAfterName(d: Text, j: nat, text: Text): (r: Option<RecordRead>)
    requires j + RECORD_HEADER_SIZE <= |d|
    ensures r.Some? ==> j < r.value.next <= |d|
  {
    RecordAfterHeader(d, j + RECORD_HEADER_SIZE, ReadHeader(d, j), text)
  }

  function RecordAfterHeader(d: Text, start: nat, h: Header, text: Text): (r: Option<RecordRead>)
    ensures r.Some? ==> start <= r.value.next <= |d|
  {
    if start + h.length > |d| || NormalForm(text).None? then None
    else
      match ReadData(d, start, h.rtype, h.length)
      case None => None
      case Some(x) =>
        if x.next != start + h.length || !ValidData(x.data) then None
        else
          var key := Key(NormalForm(text).value, HighBitClear(h.clazz), h.rtype);
          Some(RecordRead(Record(key, StoredTtl(h.ttl), x.data), h.clazz >= HIGH_BIT, x.next))
  }

  // ---------- What is where ----------

  /** A question: the name, its type, and its class under the unicast bit. */
  lemma KeyLayout(k: Key, unicast: bool, at: nat, table: NameTable)
    requires WriteName(k.name, at, table).Some? && k.clazz < 0x8000
    ensures WriteKey(k, unicast, at, table).Some?
    ensures var n, b := WriteName(k.name, at, table).value.bytes, WriteKey(k, unicast, at, table).value.bytes;
            && |b| == |n| + 4 && b[..|n|] == n
            && FieldAt(b, |n|, k.rtype)
            && FieldAt(b, |n| + 2, if unicast then 0x8000 + k.clazz else k.clazz)
  {
    hide WriteName;
    var n, b := WriteName(k.name, at, table).value.bytes, WriteKey(k, unicast, at, table).value.bytes;
    assert b[|n|..] == KeyFields(k, unicast);
    assert forall i :: 0 <= i < 4 ==> b[|n| + i] == KeyFields(k, unicast)[i];
  }

  /** A record: the name, its type, its class under the flush bit, its TTL, the length of its data, and the data. */
  lemma RecordLayout(r: Record, flush: bool, maxTtl: uint32, at: nat, table: NameTable)
    requires WriteRecord(r, flush, maxTtl, at, table).Some? && r.key.clazz < 0x8000
    ensures var n, b := WriteName(r.key.name, at, table).value.bytes, WriteRecord(r, flush, maxTtl, at, table).value.bytes;
            var ttl := if 0 < maxTtl < r.ttl then maxTtl else r.ttl;
            && |b| >= |n| + 10 && b[..|n|] == n
            && FieldAt(b, |n|, r.key.rtype)
            && FieldAt(b, |n| + 2, if flush then 0x8000 + r.key.clazz else r.key.clazz)
            && FieldAt(b, |n| + 4, ttl / 0x1_0000) && FieldAt(b, |n| + 6, ttl % 0x1_0000)
            && FieldAt(b, |n| + 8, |b| - |n| - 10)
  {
    hide WriteName, WriteData;
    var n, b := WriteName(r.key.name, at, table).value, WriteRecord(r, flush, maxTtl, at, table).value.bytes;
    var x := WriteData(r.data, at + |n.bytes| + RECORD_HEADER_SIZE, DataTable(n, table)).value;
    var h := HeaderOf(r, flush, maxTtl, |x.bytes|);
    assert b == n.bytes + (h + x.bytes);
    assert forall i :: 0 <= i < 10 ==> b[|n.bytes| + i] == h[i];
  }

  // ---------- Round trip of the fixed fields ----------

  lemma SliceOfSlice(d: Text, i: nat, s: Text, j: nat, k: nat)
    requires i + |s| <= |d| && d[i..i + |s|] == s && j <= k <= |s|
    ensures d[i + j..i + k] == s[j..k]
  {
    assert s[j..k] == d[i..i + |s|][j..k];
    forall x | 0 <= x < k - j
      ensures d[i + j..i + k][x] == s[j..k][x]
    {
      assert s[j + x] == d[i..i + |s|][j + x];
    }
  }

  lemma KeyFieldsRead(d: Text, j: nat, k: Key, unicast: bool)
    requires j + 4 <= |d| && d[j..j + 4] == KeyFields(k, unicast)
    ensures ReadU16(d, j) == k.rtype
    ensures HighBitClear(ReadU16(d, j + 2)) == HighBitClear(k.clazz)
    ensures ReadU16(d, j + 2) >= HIGH_BIT <==> unicast || k.clazz >= HIGH_BIT
  {
    var f := KeyFields(k, unicast);
    var c := if unicast then HighBitSet(k.clazz) else k.clazz;
    SliceOfSlice(d, j, f, 0, 2);
    SliceOfSlice(d, j, f, 2, 4);
    assert f[0..2] == U16(k.rtype) && f[2..4] == U16(c);
    U16RoundTrip(k.rtype, d, j);
    U16RoundTrip(c, d, j + 2);
  }

  lemma SrvFieldsRead(d: Text, i: nat, p: uint16, w: uint16, o: uint16)
    requires i + 6 <= |d| && d[i..i + 6] == SrvFields(p, w, o)
    ensures ReadU16(d, i) == p && ReadU16(d, i + 2) == w && ReadU16(d, i + 4) == o
  {
    var f := SrvFields(p, w, o);
    SliceOfSlice(d, i, f, 0, 2);
    SliceOfSlice(d, i, f, 2, 4);
    SliceOfSlice(d, i, f, 4, 6);
    assert f[0..2] == U16(p) && f[2..4] == U16(w) && f[4..6] == U16(o);
    U16RoundTrip(p, d, i);
    U16RoundTrip(w, d, i + 2);
    U16RoundTrip(o, d, i + 4);
  }

  lemma HeaderFieldsRead(d: Text, j: nat, rtype: uint16, clazz: uint16, ttl: uint32, length: uint16)
    requires j + RECORD_HEADER_SIZE <= |d|
    requires d[j..j + RECORD_HEADER_SIZE] == RecordHeader(rtype, clazz, ttl, length)
    ensures ReadHeader(d, j) == Header(rtype, clazz, ttl, length)
  {
    var f := RecordHeader(rtype, clazz, ttl, length);
    SliceOfSlice(d, j, f, 0, 2);
    SliceOfSlice(d, j, f, 2, 4);
    SliceOfSlice(d, j, f, 4, 8);
    SliceOfSlice(d, j, f, 8, 10);
    assert f[0..2] == U16(rtype) && f[2..4] == U16(clazz) && f[4..8] == U32(ttl) && f[8..10] == U16(length);
    U16RoundTrip(rtype, d, j);
    U16RoundTrip(clazz, d, j + 2);
    U32RoundTrip(ttl, d, j + 4);
    U16RoundTrip(length, d, j + 8);
  }

  // ---------- Round trip of a key ----------

  lemma NormalReadsAsItself(name: Text)
    requires Normal(name)
    ensures NormalForm(name) == Some(name)
  {
    NormalIsJoin(name);
  }

  lemma SameBodyTransitive(a: Text, b: Text, c: Text)
    requires SameBody(a, b) && SameBody(b, c)
    ensures SameBody(a, c)
  {
    SameBodyAt(b, c, HEADER_SIZE, |a|);
  }

  /** The two halves of what was written, found again in a packet that grew. */
  lemma Halves(d: Text, a: Text, b: Text, e: Text)
    requires |d| >= HEADER_SIZE && SameBody(d + (a + b), e)
    ensures d + (a + b) == d + a + b
    ensures SameBody(d + a, e)
    ensures |e| >= |d| + |a| + |b|
    ensures e[|d|..|d| + |a|] == a
    ensures e[|d| + |a|..|d| + |a| + |b|] == b
  {
    var all := d + (a + b);
    Assoc(d, a, b);
    AppendKeepsBody(d + a, b);
    SameBodyTransitive(d + a, all, e);
    SameBodyAt(all, e, |d|, |d| + |a|);
    SameBodyAt(all, e, |d| + |a|, |all|);
    assert all[|d|..|d| + |a|] == a;
    assert all[|d| + |a|..|all|] == b;
  }

  /** The key a reader gets: the top bit of the class is the unicast bit. */
  function KeyOnWire(k: Key): Key {
    k.(clazz := HighBitClear(k.clazz))
  }

  /**
   consume_key inverts append_key, whatever suffix was compressed and whatever follows, exactly
   when the reader can take the name.
   */
  lemma KeyRoundTrip(d: Text, k: Key, unicast: bool, table: NameTable, e: Text)
    requires |d| >= HEADER_SIZE && TableOk(d, table) && Normal(k.name)
    requires var w := WriteKey(k, unicast, |d|, table); w.Some? && SameBody(d + w.value.bytes, e)
    ensures |Split(k.name).value| <= 63 && |k.name| < KEY_NAME_SIZE ==> Readable(e, |d|, k.name, KEY_NAME_SIZE)
    ensures ReadKey(e, |d|).Some? <==> Readable(e, |d|, k.name, KEY_NAME_SIZE)
    ensures ReadKey(e, |d|).Some? ==>
              ReadKey(e, |d|).value == KeyRead(KeyOnWire(k), unicast || k.clazz >= HIGH_BIT,
                                               |d| + |WriteKey(k, unicast, |d|, table).value.bytes|)
  {
    hide TableOk, WriteName, Readable, Normal, Split, SameBody, ReadName;
    var n := WriteName(k.name, |d|, table).value;
    Halves(d, n.bytes, KeyFields(k, unicast), e);
    NameRoundTrip(d, k.name, table, e, KEY_NAME_SIZE);
    KeyFieldsRead(e, |d| + |n.bytes|, k, unicast);
    NormalReadsAsItself(k.name);
  }

  lemma SameKey(k: Key)
    requires k.clazz < 0x8000
    ensures KeyOnWire(k) == k && !(k.clazz >= HIGH_BIT)
  {
  }

  lemma KeyReadable(e: Text, i: nat, name: Text)
    requires Normal(name)
    ensures Readable(e, i, name, KEY_NAME_SIZE) <==> Passes(e, i, Split(name).value) <= 127 && |name| < 256
  {
  }

  /**
   A key of any class below 0x8000 comes back as it was, with the unicast bit it was written with, if its name takes no
   more than 127 passes and has less than 256 bytes as text.
   */
  lemma KeyComesBack(d: Text, k: Key, unicast: bool, table: NameTable, e: Text)
    requires |d| >= HEADER_SIZE && TableOk(d, table) && Normal(k.name) && k.clazz < 0x8000
    requires var w := WriteKey(k, unicast, |d|, table); w.Some? && SameBody(d + w.value.bytes, e)
    ensures ReadKey(e, |d|).Some? <==> Passes(e, |d|, Split(k.name).value) <= 127 && |k.name| < 256
    ensures var x := ReadKey(e, |d|); x.Some? ==> x.value.key == k && x.value.unicast == unicast
  {
    hide *;
    KeyReadable(e, |d|, k.name);
    SameKey(k);
    KeyRoundTrip(d, k, unicast, table, e);
  }

  lemma KeyKeepsTable(d: Text, k: Key, unicast: bool, table: NameTable)
    requires |d| >= HEADER_SIZE && TableOk(d, table) && Normal(k.name)
    ensures var w := WriteKey(k, unicast, |d|, table);
            w.Some? && TableOk(d + w.value.bytes, Extended(table, w.value))
  {
    WriteNameKeepsTable(d, k.name, table);
    var n := WriteName(k.name, |d|, table).value;
    var fields := KeyFields(k, unicast);
    Assoc(d, n.bytes, fields);
    AppendKeepsBody(d + n.bytes, fields);
    TableStable(d + n.bytes, d + n.bytes + fields, Extended(table, n));
  }

  // ---------- Round trip of record data ----------

  predicate NormalData(data: Rdata) {
    (data.NameData? || data.SrvData? ==> Normal(data.target)) &&
    (data.HinfoData? ==> IsCString(data.cpu) && IsCString(data.os))
  }

  function DataOnWire(data: Rdata): Rdata {
    match data
    case HinfoData(cpu, os) => HinfoData(Clip(cpu), Clip(os))
    case TxtData(strings) => TxtData(Kept(strings))
    case _ => data
  }

  predicate ReadableData(d: Text, i: nat, data: Rdata)
    requires NormalData(data)
  {
    match data
    case NameData(target) => Readable(d, i, target, DOMAIN_NAME_MAX)
    case SrvData(_, _, _, target) => Readable(d, i + 6, target, DOMAIN_NAME_MAX)
    case _ => true
  }

  lemma CountedStringRead(d: Text, i: nat, s: Text)
    requires IsCString(s) && i + |CountedString(s)| <= |d|
    requires d[i..i + |CountedString(s)|] == CountedString(s)
    ensures ReadString(d, i) == Some((Clip(s), i + |CountedString(s)|))
  {
    var c := CountedString(s);
    assert d[i] == d[i..i + |c|][0];
    SliceOfSlice(d, i, c, 1, |c|);
    assert c[1..|c|] == Clip(s);
  }

  predicate SmallData(data: Rdata)
    requires NormalData(data)
  {
    data.NameData? || data.SrvData? ==> |Split(data.target).value| <= 63 && |data.target| < DOMAIN_NAME_MAX
  }

  lemma NameAfterFields(d: Text, f: Text, name: Text, table: NameTable, e: Text)
    requires |d| >= HEADER_SIZE && TableOk(d, table) && Normal(name)
    requires var n := WriteName(name, |d| + |f|, table); n.Some? && SameBody(d + f + n.value.bytes, e)
    ensures |Split(name).value| <= 63 && |name| < DOMAIN_NAME_MAX ==> Readable(e, |d| + |f|, name, DOMAIN_NAME_MAX)
    ensures ReadName(e, |d| + |f|, DOMAIN_NAME_MAX).Some? <==> Readable(e, |d| + |f|, name, DOMAIN_NAME_MAX)
    ensures ReadName(e, |d| + |f|, DOMAIN_NAME_MAX).Some? ==>
              ReadName(e, |d| + |f|, DOMAIN_NAME_MAX).value ==
              (name, |WriteName(name, |d| + |f|, table).value.bytes|)
  {
    AppendKeepsBody(d, f);
    TableStable(d, d + f, table);
    NameRoundTrip(d + f, name, table, e, DOMAIN_NAME_MAX);
  }

  lemma SrvDataReads(d: Text, data: Rdata, table: NameTable, e: Text)
    requires data.SrvData? && NormalData(data) && |d| >= HEADER_SIZE && TableOk(d, table)
    requires var n := WriteName(data.target, |d| + 6, table);
             n.Some? && SameBody(d + (SrvFields(data.priority, data.weight, data.port) + n.value.bytes), e)
    ensures SmallData(data) ==> ReadableData(e, |d|, data)
    ensures SrvDataRead(e, |d|).Some? <==> ReadableData(e, |d|, data)
    ensures SrvDataRead(e, |d|).Some? ==>
              SrvDataRead(e, |d|).value ==
              DataRead(data, |d| + 6 + |WriteName(data.target, |d| + 6, table).value.bytes|)
  {
    var f := SrvFields(data.priority, data.weight, data.port);
    Halves(d, f, WriteName(data.target, |d| + 6, table).value.bytes, e);
    NameAfterFields(d, f, data.target, table, e);
    SrvFieldsRead(e, |d|, data.priority, data.weight, data.port);
  }

  lemma TwoStringsRead(e: Text, i: nat, j: nat, k: nat, cpu: Text, os: Text)
    requires ReadString(e, i) == Some((cpu, j)) && ReadString(e, j) == Some((os, k))
    ensures HinfoDataRead(e, i) == Some(DataRead(HinfoData(cpu, os), k))
  {
  }

  lemma HinfoDataReads(d: Text, cpu: Text, os: Text, e: Text)
    requires IsCString(cpu) && IsCString(os) && |d| >= HEADER_SIZE
    requires SameBody(d + (CountedString(cpu) + CountedString(os)), e)
    ensures HinfoDataRead(e, |d|) ==
            Some(DataRead(HinfoData(Clip(cpu), Clip(os)), |d| + |CountedString(cpu)| + |CountedString(os)|))
  {
    hide SameBody, HinfoDataRead, ReadString, CountedString, Clip;
    var c, o := CountedString(cpu), CountedString(os);
    var j := |d| + |c|;
    Halves(d, c, o, e);
    CountedStringRead(e, |d|, cpu);
    CountedStringRead(e, j, os);
    TwoStringsRead(e, |d|, j, j + |o|, Clip(cpu), Clip(os));
  }

  lemma WrittenBytes(d: Text, b: Text, e: Text)
    requires |d| >= HEADER_SIZE && SameBody(d + b, e)
    ensures |d| + |b| <= |e| && e[|d|..|d| + |b|] == b
  {
    SameBodyAt(d + b, e, |d|, |d| + |b|);
  }

  /** parse_rdata inverts append_rdata exactly when the reader can take the name in the data, if any. */
  lemma DataRoundTrip(d: Text, rtype: uint16, data: Rdata, table: NameTable, e: Text)
    requires |d| >= HEADER_SIZE && TableOk(d, table) && NormalData(data) && Fits(rtype, data)
    requires var x := WriteData(data, |d|, table); x.Some? && SameBody(d + x.value.bytes, e)
    ensures var l := |WriteData(data, |d|, table).value.bytes|;
            && |d| + l <= |e|
            && (ReadData(e, |d|, rtype, l).Some? <==> ReadableData(e, |d|, data))
            && (ReadData(e, |d|, rtype, l).Some? ==>
                  ReadData(e, |d|, rtype, l).value == DataRead(DataOnWire(data), |d| + l))
    ensures SmallData(data) ==> ReadableData(e, |d|, data)
  {
    hide TableOk, WriteName, Readable, ReadName;
    WrittenBytes(d, WriteData(data, |d|, table).value.bytes, e);
    match data
    case NameData(target) => NameRoundTrip(d, target, table, e, DOMAIN_NAME_MAX);
    case SrvData(_, _, _, target) => SrvDataReads(d, data, table, e);
    case HinfoData(cpu, os) => HinfoDataReads(d, cpu, os, e);
    case TxtData(strings) => ParseSerialized(strings);
    case _ =>
  }

  /** Record data, once written, leaves the table right. */
  lemma DataKeepsTable(d: Text, data: Rdata, table: NameTable)
    requires |d| >= HEADER_SIZE && TableOk(d, table) && NormalData(data)
    ensures var x := WriteData(data, |d|, table);
            x.Some? && TableOk(d + x.value.bytes, Extended(table, x.value))
  {
    match data
    case NameData(target) => WriteNameKeepsTable(d, target, table);
    case SrvData(p, w, o, target) =>
      var f := SrvFields(p, w, o);
      AppendKeepsBody(d, f);
      TableStable(d, d + f, table);
      WriteNameKeepsTable(d + f, target, table);
      Assoc(d, f, WriteName(target, |d| + 6, table).value.bytes);
    case _ =>
      var x := WriteData(data, |d|, table).value;
      AppendKeepsBody(d, x.bytes);
      TableStable(d, d + x.bytes, table);
      assert map[] + table == table;
  }

  // ---------- Round trip of a record ----------

  function RecordOnWire(r: Record, maxTtl: uint32): Record {
    Record(KeyOnWire(r.key), StoredTtl(WireTtl(r.ttl, maxTtl)), DataOnWire(r.data))
  }

  predicate NormalRecord(r: Record) {
    Normal(r.key.name) && Fits(r.key.rtype, r.data) && NormalData(r.data)
  }

  predicate SmallRecord(r: Record)
    requires NormalRecord(r)
  {
    |Split(r.key.name).value| <= 63 && |r.key.name| < DOMAIN_NAME_MAX && SmallData(r.data)
  }

  /** Where the owner name of a record ends. */
  function NameEnd(r: Record, at: nat, table: NameTable): nat {
    match WriteName(r.key.name, at, table)
    case None => at
    case Some(n) => at + |n.bytes|
  }

  /** The reader can take both names of a record at offset `at` whose owner name ends at `nameEnd`. */
  predicate ReadableRecord(e: Text, at: nat, nameEnd: nat, r: Record)
    requires NormalRecord(r)
  {
    Readable(e, at, r.key.name, DOMAIN_NAME_MAX) && ReadableData(e, nameEnd + RECORD_HEADER_SIZE, r.data)
  }

  lemma WireDataIsValid(e: Text, at: nat, data: Rdata)
    requires NormalData(data) && ReadableData(e, at, data)
    ensures ValidData(DataOnWire(data))
  {
    match data
    case NameData(target) => NormalReadsAsItself(target);
    case SrvData(_, _, _, target) => NormalReadsAsItself(target);
    case TxtData(strings) => ParseSerialized(strings);
    case _ =>
  }

  /** The data of a record, found after its header. */
  lemma DataAfterHeader(d: Text, h: Text, r: Record, table: NameTable, e: Text)
    requires |d| >= HEADER_SIZE && NormalRecord(r) && TableOk(d, table)
    requires var x := WriteData(r.data, |d| + |h|, table); x.Some? && SameBody(d + h + x.value.bytes, e)
    ensures var l, i := |WriteData(r.data, |d| + |h|, table).value.bytes|, |d| + |h|;
            && i + l <= |e|
            && (ReadData(e, i, r.key.rtype, l).Some? <==> ReadableData(e, i, r.data))
            && (ReadData(e, i, r.key.rtype, l).Some? ==>
                  ReadData(e, i, r.key.rtype, l).value == DataRead(DataOnWire(r.data), i + l))
            && (SmallData(r.data) ==> ReadableData(e, i, r.data))
            && (ReadableData(e, i, r.data) ==> ValidData(DataOnWire(r.data)))
  {
    hide TableOk, WriteData, ReadData, SameBody, ReadableData, SmallData, NormalData, DataOnWire, ValidData, Fits;
    AppendKeepsBody(d, h);
    TableStable(d, d + h, table);
    DataRoundTrip(d + h, r.key.rtype, r.data, table, e);
    if ReadableData(e, |d| + |h|, r.data) {
      WireDataIsValid(e, |d| + |h|, r.data);
    }
  }

  function DataLength(r: Record, at: nat, table: NameTable): nat {
    match WriteData(r.data, at, table)
    case None => 0
    case Some(x) => |x.bytes|
  }

  function HeaderFields(r: Record, flush: bool, maxTtl: uint32, l: uint16): Header {
    Header(r.key.rtype, if flush then HighBitSet(r.key.clazz) else HighBitClear(r.key.clazz), WireTtl(r.ttl, maxTtl), l)
  }

  lemma HeaderReads(e: Text, i: nat, r: Record, flush: bool, maxTtl: uint32, l: uint16)
    requires i + RECORD_HEADER_SIZE <= |e|
    requires e[i..i + RECORD_HEADER_SIZE] == HeaderOf(r, flush, maxTtl, l)
    ensures ReadHeader(e, i) == HeaderFields(r, flush, maxTtl, l)
  {
    var h := HeaderFields(r, flush, maxTtl, l);
    HeaderFieldsRead(e, i, h.rtype, h.clazz, h.ttl, l);
  }

  lemma DataThenRecord(e: Text, i: nat, r: Record, flush: bool, maxTtl: uint32, l: uint16)
    requires i + l <= |e| && NormalForm(r.key.name) == Some(r.key.name)
    requires var x := ReadData(e, i, r.key.rtype, l);
             x.Some? ==> x.value == DataRead(DataOnWire(r.data), i + l) && ValidData(DataOnWire(r.data))
    ensures var a := RecordAfterHeader(e, i, HeaderFields(r, flush, maxTtl, l), r.key.name);
            && (a.Some? <==> ReadData(e, i, r.key.rtype, l).Some?)
            && (a.Some? ==> a.value == RecordRead(RecordOnWire(r, maxTtl), flush, i + l))
  {
  }

  /** After the owner name: the header was written with the final length, then the data. */
  lemma RecordBodyReads(d: Text, r: Record, flush: bool, maxTtl: uint32, table: NameTable, e: Text)
    requires |d| >= HEADER_SIZE && NormalRecord(r) && TableOk(d, table)
    requires var x := WriteData(r.data, |d| + RECORD_HEADER_SIZE, table);
             x.Some? && |x.value.bytes| < 0x1_0000 &&
             SameBody(d + (HeaderOf(r, flush, maxTtl, |x.value.bytes|) + x.value.bytes), e)
    ensures |d| + RECORD_HEADER_SIZE <= |e|
    ensures SmallData(r.data) ==> ReadableData(e, |d| + RECORD_HEADER_SIZE, r.data)
    ensures var a := RecordAfterName(e, |d|, r.key.name);
            && (a.Some? <==> ReadableData(e, |d| + RECORD_HEADER_SIZE, r.data))
            && (a.Some? ==> a.value == RecordRead(RecordOnWire(r, maxTtl), flush,
                  |d| + RECORD_HEADER_SIZE + DataLength(r, |d| + RECORD_HEADER_SIZE, table)))
  {
    var x := WriteData(r.data, |d| + RECORD_HEADER_SIZE, table).value;
    var h := HeaderOf(r, flush, maxTtl, |x.bytes|);
    Halves(d, h, x.bytes, e);
    DataAfterHeader(d, h, r, table, e);
    NormalReadsAsItself(r.key.name);
    HeaderReads(e, |d|, r, flush, maxTtl, |x.bytes|);
    DataThenRecord(e, |d| + RECORD_HEADER_SIZE, r, flush, maxTtl, |x.bytes|);
  }

  /** A name followed by anything, read back from a packet that grew. */
  lemma NameBeforeRest(d: Text, name: Text, rest: Text, table: NameTable, e: Text)
    requires |d| >= HEADER_SIZE && TableOk(d, table) && Normal(name)
    requires var n := WriteName(name, |d|, table); n.Some? && SameBody(d + (n.value.bytes + rest), e)
    ensures |Split(name).value| <= 63 && |name| < DOMAIN_NAME_MAX ==> Readable(e, |d|, name, DOMAIN_NAME_MAX)
    ensures ReadName(e, |d|, DOMAIN_NAME_MAX).Some? <==> Readable(e, |d|, name, DOMAIN_NAME_MAX)
    ensures ReadName(e, |d|, DOMAIN_NAME_MAX).Some? ==>
              ReadName(e, |d|, DOMAIN_NAME_MAX).value == (name, |WriteName(name, |d|, table).value.bytes|)
    ensures var n := WriteName(name, |d|, table).value;
            SameBody(d + n.bytes + rest, e) && TableOk(d + n.bytes, DataTable(n, table))
  {
    Halves(d, WriteName(name, |d|, table).value.bytes, rest, e);
    NameRoundTrip(d, name, table, e, DOMAIN_NAME_MAX);
    WriteNameKeepsTable(d, name, table);
  }

  /** Both parts of a record at offset `i`, whose owner name ends at `b`, read as they should. */
  predicate PartsRead(e: Text, i: nat, b: nat, r: Record, out: RecordRead)
    requires NormalRecord(r)
  {
    && b + RECORD_HEADER_SIZE <= |e|
    && (var o := ReadName(e, i, DOMAIN_NAME_MAX);
        && (o.Some? <==> Readable(e, i, r.key.name, DOMAIN_NAME_MAX))
        && (o.Some? ==> o.value.0 == r.key.name && i + o.value.1 == b))
    && (var a := RecordAfterName(e, b, r.key.name);
        && (a.Some? <==> ReadableData(e, b + RECORD_HEADER_SIZE, r.data))
        && (a.Some? ==> a.value == out))
  }

  /** Putting the two parts of a record together. */
  lemma OwnerThenRest(e: Text, i: nat, b: nat, r: Record, out: RecordRead)
    requires NormalRecord(r) && PartsRead(e, i, b, r, out)
    ensures ReadRecord(e, i).Some? <==> ReadableRecord(e, i, b, r)
    ensures ReadRecord(e, i).Some? ==> ReadRecord(e, i).value == out
  {
    RecordUnfolds(e, i, b, r.key.name);
  }

  lemma RecordUnfolds(e: Text, i: nat, b: nat, name: Text)
    requires b + RECORD_HEADER_SIZE <= |e|
    ensures var o := ReadName(e, i, DOMAIN_NAME_MAX);
            && (o.None? ==> ReadRecord(e, i).None?)
            && (o.Some? && o.value.0 == name && i + o.value.1 == b ==> ReadRecord(e, i) == RecordAfterName(e, b, name))
  {
  }

  /** The parts of a written record; `d1` is the packet after the owner name. */
  lemma RecordParts(d: Text, r: Record, flush: bool, maxTtl: uint32, table: NameTable, d1: Text)
    requires WriteRecord(r, flush, maxTtl, |d|, table).Some?
    requires d1 == d + WriteName(r.key.name, |d|, table).value.bytes
    ensures var n := WriteName(r.key.name, |d|, table).value;
            var x := WriteData(r.data, |d1| + RECORD_HEADER_SIZE, DataTable(n, table));
            && NameEnd(r, |d|, table) == |d1| == |d| + |n.bytes|
            && x.Some? && |x.value.bytes| < 0x1_0000
            && |WriteRecord(r, flush, maxTtl, |d|, table).value.bytes| ==
               |n.bytes| + RECORD_HEADER_SIZE + |x.value.bytes|
            && d + WriteRecord(r, flush, maxTtl, |d|, table).value.bytes ==
               d + (n.bytes + (HeaderOf(r, flush, maxTtl, |x.value.bytes|) + x.value.bytes))
  {
  }

  lemma RestReads(d: Text, d1: Text, r: Record, flush: bool, maxTtl: uint32, table: NameTable, e: Text)
    requires |d| >= HEADER_SIZE && TableOk(d, table) && NormalRecord(r)
    requires var w := WriteRecord(r, flush, maxTtl, |d|, table); w.Some? && SameBody(d + w.value.bytes, e)
    requires d1 == d + WriteName(r.key.name, |d|, table).value.bytes
    ensures |d1| == NameEnd(r, |d|, table)
    ensures SmallRecord(r) ==> ReadableRecord(e, |d|, |d1|, r)
    ensures PartsRead(e, |d|, |d1|, r, RecordRead(RecordOnWire(r, maxTtl), flush,
                                                  |d| + |WriteRecord(r, flush, maxTtl, |d|, table).value.bytes|))
  {
    RecordParts(d, r, flush, maxTtl, table, d1);
    var n := WriteName(r.key.name, |d|, table).value;
    var x := WriteData(r.data, |d1| + RECORD_HEADER_SIZE, DataTable(n, table)).value;
    NameBeforeRest(d, r.key.name, HeaderOf(r, flush, maxTtl, |x.bytes|) + x.bytes, table, e);
    RecordBodyReads(d1, r, flush, maxTtl, DataTable(n, table), e);
  }

  /**
   consume_record inverts append_record exactly when the reader can take both names; the flush
   bit always survives, the TTL is capped and its largest value becomes the default.
   */
  lemma RecordRoundTrip(d: Text, r: Record, flush: bool, maxTtl: uint32, table: NameTable, e: Text)
    requires |d| >= HEADER_SIZE && TableOk(d, table) && NormalRecord(r)
    requires var w := WriteRecord(r, flush, maxTtl, |d|, table); w.Some? && SameBody(d + w.value.bytes, e)
    ensures SmallRecord(r) ==> ReadableRecord(e, |d|, NameEnd(r, |d|, table), r)
    ensures ReadRecord(e, |d|).Some? <==> ReadableRecord(e, |d|, NameEnd(r, |d|, table), r)
    ensures ReadRecord(e, |d|).Some? ==>
              ReadRecord(e, |d|).value == RecordRead(RecordOnWire(r, maxTtl), flush,
                                                     |d| + |WriteRecord(r, flush, maxTtl, |d|, table).value.bytes|)
  {
    var d1 := d + WriteName(r.key.name, |d|, table).value.bytes;
    RestReads(d, d1, r, flush, maxTtl, table, e);
    var end := |d| + |WriteRecord(r, flush, maxTtl, |d|, table).value.bytes|;
    OwnerThenRest(e, |d|, NameEnd(r, |d|, table), r, RecordRead(RecordOnWire(r, maxTtl), flush, end));
  }

  /** Strings that the wire format can hold as they are. */
  predicate ExactData(data: Rdata) {
    match data
    case HinfoData(cpu, os) => |cpu| <= 255 && |os| <= 255
    case TxtData(strings) => forall t :: t in strings ==> 1 <= |t| <= 255
    case _ => true
  }

  predicate ExactRecord(r: Record) {
    r.key.clazz < 0x8000 && ExactData(r.data)
  }

  lemma ExactDataKept(data: Rdata)
    requires ExactData(data)
    ensures DataOnWire(data) == data
  {
    if data.TxtData? {
      ValidStringsAreKept(data.strings);
    }
  }

  /**
   A record comes back as it was: the same key, data and flush bit, and the same TTL, unless that is above the cap that
   was asked for, and then the cap; but a TTL of 2^32-1 comes back as the default of 4500 seconds.
   */
  lemma RecordComesBack(d: Text, r: Record, flush: bool, maxTtl: uint32, table: NameTable, e: Text)
    requires |d| >= HEADER_SIZE && TableOk(d, table) && NormalRecord(r) && ExactRecord(r)
    requires var w := WriteRecord(r, flush, maxTtl, |d|, table); w.Some? && SameBody(d + w.value.bytes, e)
    ensures ReadRecord(e, |d|).Some? <==> ReadableRecord(e, |d|, NameEnd(r, |d|, table), r)
    ensures var x := ReadRecord(e, |d|);
            x.Some? ==> && x.value.flush == flush
                        && (maxTtl == 0 || r.ttl <= maxTtl ==>
                              x.value.record == if r.ttl == 0xFFFF_FFFF then r.(ttl := 4500) else r)
                        && (0 < maxTtl < r.ttl ==> x.value.record == r.(ttl := maxTtl))
  {
    hide WriteRecord, ReadRecord, ReadableRecord, NameEnd, NormalRecord;
    RecordRoundTrip(d, r, flush, maxTtl, table, e);
    ExactDataKept(r.data);
  }

  /** A record, once written, leaves the table right. */
  lemma RecordKeepsTable(d: Text, r: Record, flush: bool, maxTtl: uint32, table: NameTable)
    requires |d| >= HEADER_SIZE && TableOk(d, table) && NormalRecord(r)
    requires WriteRecord(r, flush, maxTtl, |d|, table).Some?
    ensures var w := WriteRecord(r, flush, maxTtl, |d|, table).value; TableOk(d + w.bytes, Extended(table, w))
  {
    hide WriteName, WriteData, TableOk, NormalData, HeaderOf;
    var n := WriteName(r.key.name, |d|, table).value;
    WriteNameKeepsTable(d, r.key.name, table);
    var x := WriteData(r.data, |d| + |n.bytes| + RECORD_HEADER_SIZE, DataTable(n, table)).value;
    var h := HeaderOf(r, flush, maxTtl, |x.bytes|);
    BodyKeepsTable(d + n.bytes, h, r.data, DataTable(n, table));
    Assoc(d, n.bytes, h + x.bytes);
    MergeAssoc(x.entries, n.entries, table);
  }

  lemma BodyKeepsTable(d: Text, h: Text, data: Rdata, table: NameTable)
    requires |d| >= HEADER_SIZE && TableOk(d, table) && NormalData(data)
    ensures WriteData(data, |d| + |h|, table).Some?
    ensures var x := WriteData(data, |d| + |h|, table).value; TableOk(d + (h + x.bytes), Extended(table, x))
  {
    AppendKeepsBody(d, h);
    TableStable(d, d + h, table);
    DataKeepsTable(d + h, data, table);
    Assoc(d, h, WriteData(data, |d + h|, table).value.bytes);
  }

  lemma MergeAssoc(a: NameTable, b: NameTable, c: NameTable)
    ensures a + b + c == a + (b + c)
  {
  }
}
