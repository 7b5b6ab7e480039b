/** Query keys and resource records: validity, equality up to TTL, and hashing. */
module Records {
  import opened Bytes
  import opened Names
  import opened NameEquality
  import opened StringLists

  type uint16 = x: int | 0 <= x < 0x1_0000
  type uint32 = x: int | 0 <= x < 0x1_0000_0000

  const TYPE_A: uint16 := 1
  const TYPE_NS: uint16 := 2
  const TYPE_CNAME: uint16 := 5
  const TYPE_PTR: uint16 := 12
  const TYPE_HINFO: uint16 := 13
  const TYPE_TXT: uint16 := 16
  const TYPE_AAAA: uint16 := 28
  const TYPE_SRV: uint16 := 33
  const TYPE_ANY: uint16 := 255
  const CLASS_ANY: uint16 := 255
  const DEFAULT_TTL: uint32 := 4500

  datatype Key = Key(name: Text, clazz: uint16, rtype: uint16)

  datatype Rdata =
    | NameData(target: Text)
    | SrvData(priority: uint16, weight: uint16, port: uint16, target: Text)
    | HinfoData(cpu: Text, os: Text)
    | TxtData(strings: seq<Text>)
    | AData(address: Text)
    | AaaaData(address: Text)
    | GenericData(data: Text)

  datatype Record = Record(key: Key, ttl: uint32, data: Rdata)

  predicate NameType(t: uint16) {
    t == TYPE_PTR || t == TYPE_CNAME || t == TYPE_NS
  }

  /** The union member the record type selects. */
  predicate Fits(t: uint16, data: Rdata) {
    if NameType(t) then data.NameData?
    else if t == TYPE_SRV then data.SrvData?
    else if t == TYPE_HINFO then data.HinfoData? && IsCString(data.cpu) && IsCString(data.os)
    else if t == TYPE_TXT then data.TxtData?
    else if t == TYPE_A then data.AData? && |data.address| == 4
    else if t == TYPE_AAAA then data.AaaaData? && |data.address| == 16
    else data.GenericData? && |data.data| < 0x1_0000
  }

  /** avahi_record_is_valid, for record data of the right shape. */
  predicate ValidData(data: Rdata) {
    match data
    case NameData(target) => ValidName(target)
    case SrvData(_, _, _, target) => ValidName(target)
    case HinfoData(cpu, os) => |os| <= 255 && |cpu| <= 255
    case TxtData(strings) => ValidStrings(strings)
    case _ => true
  }

  predicate ValidKey(k: Key) {
    ValidName(k.name)
  }

  /** avahi_key_is_pattern */
  predicate IsPattern(k: Key) {
    k.rtype == TYPE_ANY || k.clazz == CLASS_ANY
  }

  predicate ValidRecord(r: Record) {
    ValidKey(r.key) && Fits(r.key.rtype, r.data) && ValidData(r.data)
  }

  // ---------- Equality ----------

  datatype CanonicalKey = CanonicalKey(labels: seq<Text>, clazz: uint16, rtype: uint16)

  function Canon(k: Key): CanonicalKey
    requires ValidKey(k)
  {
    CanonicalKey(Canonical(k.name), k.clazz, k.rtype)
  }

  /** Keys are equal exactly if their types and classes are, and their names but for the case of letters. */
  lemma KeysEqualWhen(a: Key, b: Key)
    requires ValidKey(a) && ValidKey(b)
    ensures Canon(a) == Canon(b) <==> SameName(a.name, b.name) && a.rtype == b.rtype && a.clazz == b.clazz
  {
    CanonicalIsSameName(a.name, b.name);
  }

  /** avahi_key_equal */
  method KeyEqual(a: Key, b: Key) returns (r: bool)
    requires ValidKey(a) && ValidKey(b)
    ensures r <==> Canon(a) == Canon(b)
  {
    var same := DomainEqual(a.name, b.name);
    r := same && a.rtype == b.rtype && a.clazz == b.clazz;
  }

  function HashOf(c: CanonicalKey, signed: bool): nat {
    (HashLabels(0, c.labels, signed) + c.rtype + c.clazz) % 0x1_0000_0000
  }

  /** avahi_key_hash: equal keys hash alike, because the hash depends on the canonical key alone. */
  method KeyHash(k: Key, signed: bool) returns (h: nat)
    requires ValidKey(k)
    ensures h == HashOf(Canon(k), signed)
  {
    var n := DomainHash(k.name, signed);
    h := (n + k.rtype + k.clazz) % 0x1_0000_0000;
  }

  function CanonData(d: Rdata): (r: (seq<nat>, seq<Text>))
    requires ValidData(d)
  {
    match d
    case NameData(target) => ([], Canonical(target))
    case SrvData(p, w, o, target) => ([p, w, o], Canonical(target))
    case HinfoData(cpu, os) => ([], [cpu, os])
    case TxtData(strings) => ([], strings)
    case AData(address) => ([], [address])
    case AaaaData(address) => ([], [address])
    case GenericData(data) => ([], [data])
  }

  datatype CanonicalRecord = CanonicalRecord(key: CanonicalKey, numbers: seq<nat>, texts: seq<Text>)

  /** What two records share exactly when they are equal up to TTL. */
  function CanonRecord(r: Record): CanonicalRecord
    requires ValidRecord(r)
  {
    CanonicalRecord(Canon(r.key), CanonData(r.data).0, CanonData(r.data).1)
  }

  /** The same data, field by field. */
  predicate SameRdata(a: Rdata, b: Rdata)
    requires ValidData(a) && ValidData(b)
  {
    match a
    case NameData(x) => b.NameData? && SameName(x, b.target)
    case SrvData(p, w, o, x) => b.SrvData? && p == b.priority && w == b.weight && o == b.port && SameName(x, b.target)
    case HinfoData(c, o) => b.HinfoData? && c == b.cpu && o == b.os
    case TxtData(s) => b.TxtData? && s == b.strings
    case AData(x) => b.AData? && x == b.address
    case AaaaData(x) => b.AaaaData? && x == b.address
    case GenericData(x) => b.GenericData? && x == b.data
  }

  /** Records are equal up to TTL exactly if their keys are equal and their data is the same field by field. */
  lemma RecordsEqualWhen(a: Record, b: Record)
    requires ValidRecord(a) && ValidRecord(b)
    ensures CanonRecord(a) == CanonRecord(b) <==> Canon(a.key) == Canon(b.key) && SameRdata(a.data, b.data)
  {
    hide ValidName, SameName;
    if a.key.rtype == b.key.rtype {
      match a.data
      case NameData(x) => CanonicalIsSameName(x, b.data.target);
      case SrvData(p, w, o, x) =>
        CanonicalIsSameName(x, b.data.target);
        ThreeNumbers(p, w, o, b.data.priority, b.data.weight, b.data.port);
      case HinfoData(c, o) => TwoTexts(c, o, b.data.cpu, b.data.os);
      case TxtData(_) =>
      case AData(x) => TwoTexts(x, [], b.data.address, []);
      case AaaaData(x) => TwoTexts(x, [], b.data.address, []);
      case GenericData(x) => TwoTexts(x, [], b.data.data, []);
    }
  }

  /** avahi_string_list_equal */
  method StringListEqual(a: seq<Text>, b: seq<Text>) returns (r: bool)
    ensures r <==> a == b
  {
    var i := 0;
    while true
      invariant 0 <= i <= |a| && i <= |b| && a[..i] == b[..i]
      decreases |a| - i
    {
      if i == |a| && i == |b| {
        assert a[..i] == a && b[..i] == b;
        return true;
      }
      if i == |a| || i == |b| {
        return false;
      }
      if a[i] != b[i] {
        return false;
      }
      assert a[..i + 1] == a[..i] + [a[i]] && b[..i + 1] == b[..i] + [b[i]];
      i := i + 1;
    }
  }

  /** avahi_record_equal_no_ttl decides equality up to TTL, escapes and letter case of names. */
  method RecordEqualNoTtl(a: Record, b: Record) returns (r: bool)
    requires ValidRecord(a) && ValidRecord(b)
    ensures r <==> CanonRecord(a) == CanonRecord(b)
    ensures r <==> Canon(a.key) == Canon(b.key) && SameRdata(a.data, b.data)
  {
    RecordsEqualWhen(a, b);
    hide SameRdata;
    var same := KeyEqual(a.key, b.key);
    if !same {
      return false;
    }
    match a.data
    case NameData(target) =>
      r := DomainEqual(target, b.data.target);
    case SrvData(p, w, o, target) =>
      var t := DomainEqual(target, b.data.target);
      assert [p, w, o] == [b.data.priority, b.data.weight, b.data.port] <==>
        p == b.data.priority && w == b.data.weight && o == b.data.port by {
        ThreeNumbers(p, w, o, b.data.priority, b.data.weight, b.data.port);
      }
      r := p == b.data.priority && w == b.data.weight && o == b.data.port && t;
    case HinfoData(cpu, os) =>
      TwoTexts(cpu, os, b.data.cpu, b.data.os);
      r := cpu == b.data.cpu && os == b.data.os;
    case TxtData(strings) =>
      r := StringListEqual(strings, b.data.strings);
    case AData(address) =>
      TwoTexts(address, [], b.data.address, []);
      r := address == b.data.address;
    case AaaaData(address) =>
      TwoTexts(address, [], b.data.address, []);
      r := address == b.data.address;
    case GenericData(data) =>
      TwoTexts(data, [], b.data.data, []);
      r := data == b.data.data;
  }

  lemma ThreeNumbers(a: nat, b: nat, c: nat, x: nat, y: nat, z: nat)
    ensures [a, b, c] == [x, y, z] <==> a == x && b == y && c == z
  {
    assert [a, b, c][0] == a && [a, b, c][1] == b && [a, b, c][2] == c;
    assert [x, y, z][0] == x && [x, y, z][1] == y && [x, y, z][2] == z;
  }

  lemma TwoTexts(a: Text, b: Text, x: Text, y: Text)
    ensures [a, b] == [x, y] <==> a == x && b == y
    ensures [a] == [x] <==> a == x
  {
    assert [a, b][0] == a && [a, b][1] == b && [x, y][0] == x && [x, y][1] == y;
    assert [a][0] == a && [x][0] == x;
  }
}
