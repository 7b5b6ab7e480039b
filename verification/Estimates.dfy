/** The estimate of a record's size, and which records fit the packet that is made by it. */
module Estimates {
  import opened Bytes
  import opened Names
  import opened StringLists
  import opened Records
  import opened NameWire
  import opened RecordWire
  import opened Compression
  import opened Packets

  /** avahi_record_get_estimate_size */
  function Estimate(r: Record): nat {
    var n := |r.key.name| + 1 + 4 + 4 + 2;
    match r.data
    case NameData(target) => n + |target| + 1
    case SrvData(_, _, _, target) => n + 6 + |target| + 1
    case HinfoData(cpu, os) => n + |os| + 1 + |cpu| + 1
    case TxtData(strings) => n + |Serialized(strings)|
    case AData(address) => n + 4
    case AaaaData(address) => n + 16
    case GenericData(data) => n + |data|
  }

  /** The packet made for one record by its estimate holds it. */
  predicate EstimateSuffices(r: Record, flush: bool) {
    Possible(WriteRecord(r, flush, 0, HEADER_SIZE, map[]), HEADER_SIZE, HEADER_SIZE + Estimate(r))
  }

  // ---------- What the text of a name has too much, and what compression saves ----------

  /**
   The bytes of a name's text that the wire does not need: those that only escape, and a dot at the end; `start`
   says that a label begins here.
   */
  function Spare(name: Text, start: bool): nat {
    if name == [] then if start then 1 else 0
    else if name[0] == DOT then Spare(name[1..], true)
    else if name[0] != BACKSLASH then Spare(name[1..], false)
    else if |name| >= 2 && (name[1] == DOT || name[1] == BACKSLASH) then 1 + Spare(name[2..], false)
    else if |name| < 4 then 1
    else 3 + Spare(name[4..], false)
  }

  /** The name and every name it ends in, label by label. */
  function Suffixes(name: Text): set<Text>
    decreases |name|
  {
    if name == [] then {}
    else
      match Unescape(name, LABEL_MAX)
      case None => {}
      case Some(u) => Suffixes(u.rest) + {name}
  }

  /** The longest of some names that `name` ends in, or nothing. */
  function Shared(name: Text, names: set<Text>): Text
    decreases |name|
  {
    if name == [] || name in names then name
    else
      match Unescape(name, LABEL_MAX)
      case None => []
      case Some(u) => Shared(u.rest, names)
  }

  /** What a pointer saves on the wire. */
  function Saved(shared: Text): int {
    if shared == [] then 0 else |shared| - Spare(shared, true)
  }

  /** The first label, counted byte by byte: what is spare in it is spare in the name. */
  lemma {:induction false} ScanSpare(name: Text, start: bool)
    requires Scan(name).Some? && (name != [] || !start)
    ensures var u := Scan(name).value;
            |name| + Spare(u.rest, true) == |u.content| + 1 + |u.rest| + Spare(name, start)
  {
    if name != [] && name[0] != DOT {
      if name[0] != BACKSLASH {
        ScanSpare(name[1..], false);
      } else if name[1] == DOT || name[1] == BACKSLASH {
        ScanSpare(name[2..], false);
      } else {
        ScanSpare(name[4..], false);
      }
    }
  }

  /** The exact size of a name on the wire. */
  lemma {:induction false} NameSize(name: Text, at: nat, table: NameTable)
    requires Near(table) && WriteName(name, at, table).Some?
    ensures |WriteName(name, at, table).value.bytes| ==
            |name| + 2 - Spare(name, true) - Saved(Shared(name, table.Keys))
    decreases |name|
  {
    hide Unescape, WriteName;
    if name == [] || name in table {
      NothingFresh(name, at, table);
    } else {
      Unfold(name, at, table);
      FirstLabelSpare(name);
      NameSize(Rest(name), Next(name, at), table);
    }
  }

  lemma FirstLabelSpare(name: Text)
    requires name != [] && Unescape(name, LABEL_MAX).Some?
    ensures |name| - Spare(name, true) == LabelCost(name) + |Rest(name)| - Spare(Rest(name), true)
  {
    ScanSpare(name, true);
  }

  /** A name that is written out makes an entry of each of its suffixes. */
  lemma {:induction false} NameMakesSuffixes(name: Text, at: nat)
    requires WriteName(name, at, map[]).Some?
    ensures Fresh(WriteName(name, at, map[]).value) == Suffixes(name)
    decreases |name|
  {
    hide Unescape, WriteName;
    if name == [] {
      NothingFresh(name, at, map[]);
    } else {
      Unfold(name, at, map[]);
      NameMakesSuffixes(Rest(name), Next(name, at));
    }
  }

  lemma {:induction false} SplitIsWritten(name: Text, at: nat, table: NameTable)
    requires Split(name).Some?
    ensures WriteName(name, at, table).Some?
    decreases |name|
  {
    hide Unescape;
    if name != [] && !Compressible(name, table) {
      var u := Unescape(name, LABEL_MAX).value;
      SplitIsWritten(u.rest, at + 1 + |u.content|, table);
    }
  }

  /** Any valid name can be written. */
  lemma ValidIsWritten(name: Text, at: nat, table: NameTable)
    requires ValidName(name)
    ensures WriteName(name, at, table).Some?
  {
    if name == [DOT] {
      assert Unescape(name, LABEL_MAX) == Some(Scanned([], []));
    } else {
      SplitIsWritten(name, at, table);
    }
  }

  // ---------- Which records fit ----------

  /**
   The text of the names is as much longer than their wire form as the estimate is too short: by one byte for a name
   in the record data, and by one for the owner.
   */
  predicate Roomy(r: Record) {
    var owner := r.key.name;
    match r.data
    case NameData(target) => Spare(owner, true) + Spare(target, true) + Saved(Shared(target, Suffixes(owner))) >= 2
    case SrvData(_, _, _, target) => Spare(owner, true) + Spare(target, true) + Saved(Shared(target, Suffixes(owner))) >= 2
    case TxtData(strings) => Spare(owner, true) >= 1 && |Serialized(strings)| < 0x1_0000
    case _ => Spare(owner, true) >= 1
  }

  /** The size of the target's name after that of the owner. */
  lemma TargetSize(owner: Text, target: Text, at: nat)
    requires ValidName(owner) && ValidName(target)
    ensures WriteName(owner, HEADER_SIZE, map[]).Some?
    ensures var n := WriteName(owner, HEADER_SIZE, map[]).value;
            var w := WriteName(target, at, DataTable(n, map[]));
            && |n.bytes| == |owner| + 2 - Spare(owner, true)
            && w.Some? && |w.value.bytes| <= DOMAIN_NAME_MAX + 1
            && |w.value.bytes| == |target| + 2 - Spare(target, true) - Saved(Shared(target, Suffixes(owner)))
  {
    hide ValidName, WriteName;
    OwnerSize(owner);
    var n := WriteName(owner, HEADER_SIZE, map[]).value;
    NamePlaces(owner, HEADER_SIZE, map[]);
    assert |owner| < DOMAIN_NAME_MAX && |target| < DOMAIN_NAME_MAX by { ValidIsShort(owner); ValidIsShort(target); }
    NameMakesSuffixes(owner, HEADER_SIZE);
    ValidIsWritten(target, at, DataTable(n, map[]));
    assert DataTable(n, map[]) == n.entries;
    NamePlaces(target, at, n.entries);
    NameSize(target, at, n.entries);
  }

  lemma ValidIsShort(name: Text)
    requires ValidName(name)
    ensures |name| < DOMAIN_NAME_MAX
  {
  }

  lemma {:induction false} NothingShared(name: Text)
    ensures Shared(name, {}) == []
    decreases |name|
  {
    if name != [] && Unescape(name, LABEL_MAX).Some? {
      NothingShared(Rest(name));
    }
  }

  lemma OwnerSize(owner: Text)
    requires ValidName(owner)
    ensures var n := WriteName(owner, HEADER_SIZE, map[]);
            n.Some? && |n.value.bytes| == |owner| + 2 - Spare(owner, true)
  {
    ValidIsWritten(owner, HEADER_SIZE, map[]);
    hide WriteName, ValidName;
    var none: NameTable := map[];
    assert none.Keys == {};
    NameSize(owner, HEADER_SIZE, none);
    NothingShared(owner);
  }

  /**
   The packet made by the estimate holds the record exactly if it is roomy: the estimate counts each name one byte too
   short, which escapes and compression may or may not make up for.
   */
  lemma EstimateIsExact(r: Record, flush: bool)
    requires ValidRecord(r)
    ensures EstimateSuffices(r, flush) <==> Roomy(r)
  {
    hide ValidName, WriteName, Spare, Shared, Suffixes, Saved, HeaderOf;
    OwnerSize(r.key.name);
    var n := WriteName(r.key.name, HEADER_SIZE, map[]).value;
    var at := HEADER_SIZE + |n.bytes| + RECORD_HEADER_SIZE;
    match r.data
    case NameData(target) => TargetSize(r.key.name, target, at);
    case SrvData(_, _, _, target) => TargetSize(r.key.name, target, at + 6);
    case _ =>
  }

  // ---------- Names without escapes ----------

  /** A name that is written without escapes and without a dot at its end. */
  predicate Plain(name: Text) {
    name != [] && BACKSLASH !in name && name[|name| - 1] != DOT
  }

  lemma {:induction false} SpareOrPlain(name: Text, start: bool)
    ensures Spare(name, start) == 0 <==>
            BACKSLASH !in name && if name == [] then !start else name[|name| - 1] != DOT
  {
    if name != [] && name[0] != BACKSLASH {
      assert name == [name[0]] + name[1..];
      SpareOrPlain(name[1..], name[0] == DOT);
    }
  }

  /** What plain names share is plain. */
  lemma {:induction false} SharedIsPlain(name: Text, names: set<Text>)
    requires Spare(name, true) == 0 && Shared(name, names) != []
    ensures Spare(Shared(name, names), true) == 0
    decreases |name|
  {
    if name != [] && name !in names {
      FirstLabelSpare(name);
      ScanShrinks(name);
      hide Scan, Spare;
      SharedIsPlain(Rest(name), names);
    }
  }

  /**
   Without escapes, the packet made by the estimate never holds a record whose data has no name in it, and holds one
   with a name exactly if that name ends in two bytes or more of the owner's.
   */
  lemma PlainEstimate(r: Record, flush: bool)
    requires ValidRecord(r) && Plain(r.key.name)
    ensures !r.data.NameData? && !r.data.SrvData? ==> !EstimateSuffices(r, flush)
    ensures (r.data.NameData? || r.data.SrvData?) && Plain(r.data.target) ==>
              (EstimateSuffices(r, flush) <==> |Shared(r.data.target, Suffixes(r.key.name))| >= 2)
  {
    hide ValidRecord, EstimateSuffices, Spare, Shared, Suffixes;
    EstimateIsExact(r, flush);
    SpareOrPlain(r.key.name, true);
    if r.data.NameData? || r.data.SrvData? {
      SpareOrPlain(r.data.target, true);
      if Plain(r.data.target) && Shared(r.data.target, Suffixes(r.key.name)) != [] {
        SharedIsPlain(r.data.target, Suffixes(r.key.name));
      }
    }
  }

  /** A record whose data has no name in it fits exactly if its owner name is escaped, ends in a dot, or is the root. */
  lemma NamelessEstimate(r: Record, flush: bool)
    requires ValidRecord(r) && !r.data.NameData? && !r.data.SrvData?
    requires r.data.TxtData? ==> |Serialized(r.data.strings)| < 0x1_0000
    ensures EstimateSuffices(r, flush) <==> !Plain(r.key.name)
  {
    hide ValidRecord, EstimateSuffices, Spare;
    EstimateIsExact(r, flush);
    SpareOrPlain(r.key.name, true);
  }

  /** The address record of a host "a" does not fit the packet that is made for it. */
  lemma AddressDoesNotFit(r: Record)
    requires r == Record(Key([97], 1, TYPE_A), 120, AData([10, 0, 0, 1]))
    ensures ValidRecord(r) && !EstimateSuffices(r, true)
  {
    var ls: seq<Text> := [[97]];
    assert ValidLabel([97]) && Escape([97]) == [97];
    SplitJoin(ls);
    NamelessEstimate(r, true);
  }
}
