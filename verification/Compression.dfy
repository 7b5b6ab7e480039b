/**
 Name compression never makes room that an empty packet lacks: whatever fits a packet that is in use, thanks to
 the names it holds already, also fits an empty one.
 */
module Compression {
  import opened Bytes
  import opened Names
  import opened Records
  import opened NameWire
  import opened RecordWire
  import opened Messages

  // ---------- What the names of a table took up ----------

  /** The bytes of the first label of a name, length byte included. */
  function LabelCost(k: Text): nat {
    match Unescape(k, LABEL_MAX)
    case None => 0
    case Some(u) => 1 + |u.content|
  }

  ghost function Cost(s: set<Text>): nat {
    if s == {} then 0
    else
      var k :| k in s;
      LabelCost(k) + Cost(s - {k})
  }

  lemma {:induction false} CostOfOne(s: set<Text>, k: Text)
    requires k in s
    ensures Cost(s) == LabelCost(k) + Cost(s - {k})
  {
    var c :| c in s && Cost(s) == LabelCost(c) + Cost(s - {c});
    if c != k {
      CostOfOne(s - {c}, k);
      CostOfOne(s - {k}, c);
      assert s - {c} - {k} == s - {k} - {c};
    }
  }

  lemma {:induction false} CostGrows(s: set<Text>, t: set<Text>)
    requires s <= t
    ensures Cost(s) <= Cost(t)
  {
    if s != {} {
      var k :| k in s;
      CostOfOne(s, k);
      CostOfOne(t, k);
      CostGrows(s - {k}, t - {k});
    }
  }

  lemma CostAdded(s: set<Text>, k: Text)
    ensures Cost(s + {k}) <= Cost(s) + LabelCost(k)
  {
    if k in s {
      assert s + {k} == s;
    } else {
      CostOfOne(s + {k}, k);
      assert s + {k} - {k} == s;
    }
  }

  /** With a name goes every name it ends in. */
  predicate Closed(keys: set<Text>) {
    forall k :: k in keys ==>
      k != [] && Unescape(k, LABEL_MAX).Some? && (Rest(k) == [] || Rest(k) in keys)
  }

  /** A pointer to an entry fits its 14 bits. */
  predicate Near(table: NameTable) {
    forall k :: k in table ==> table[k] < POINTER_LIMIT
  }

  function Fresh(w: NameBytes): set<Text> {
    w.entries.Keys
  }

  /** One label of a name that is written out; the rest of it goes to `next`. */
  lemma Unfold(name: Text, at: nat, table: NameTable)
    requires name != [] && !Compressible(name, table)
    ensures WriteName(name, at, table).Some? ==> Unescape(name, LABEL_MAX).Some?
    ensures Unescape(name, LABEL_MAX).Some? ==>
              var rest, next := Rest(name), Next(name, at);
              && |rest| < |name|
              && (WriteName(name, at, table).Some? <==> WriteName(rest, next, table).Some?)
              && (WriteName(rest, next, table).Some? ==>
                    && |WriteName(name, at, table).value.bytes| ==
                       LabelCost(name) + |WriteName(rest, next, table).value.bytes|
                    && Fresh(WriteName(name, at, table).value) == Fresh(WriteName(rest, next, table).value) + {name})
  {
    if Unescape(name, LABEL_MAX).Some? {
      var u := Unescape(name, LABEL_MAX).value;
      if WriteName(u.rest, at + 1 + |u.content|, table).Some? {
        var w := WriteName(u.rest, at + 1 + |u.content|, table).value;
        assert WriteName(name, at, table).value == WithLabel(name, u.content, at, w);
      }
    }
  }

  function Rest(name: Text): Text
    requires Unescape(name, LABEL_MAX).Some?
  {
    Unescape(name, LABEL_MAX).value.rest
  }

  function Next(name: Text, at: nat): nat
    requires Unescape(name, LABEL_MAX).Some?
  {
    at + 1 + |Unescape(name, LABEL_MAX).value.content|
  }

  lemma NothingFresh(name: Text, at: nat, table: NameTable)
    requires name == [] || Compressible(name, table)
    ensures WriteName(name, at, table).Some? && Fresh(WriteName(name, at, table).value) == {}
    ensures |WriteName(name, at, table).value.bytes| == if name == [] then 1 else 2
  {
  }

  lemma {:induction false} FreshIsShorter(name: Text, at: nat, table: NameTable, k: Text)
    requires WriteName(name, at, table).Some? && k in Fresh(WriteName(name, at, table).value)
    ensures 0 < |k| <= |name|
    decreases |name|
  {
    if name != [] && !Compressible(name, table) {
      Unfold(name, at, table);
      if k != name {
        FreshIsShorter(Rest(name), Next(name, at), table, k);
      }
    }
  }

  /** A name pays for the entries it makes, and makes all of them. */
  lemma {:induction false} NamePays(name: Text, at: nat, table: NameTable)
    requires Closed(table.Keys) && WriteName(name, at, table).Some?
    ensures var w := WriteName(name, at, table).value;
            && Closed(table.Keys + Fresh(w))
            && (name == [] || name in table.Keys + Fresh(w))
            && Cost(table.Keys + Fresh(w)) <= Cost(table.Keys) + |w.bytes|
    decreases |name|
  {
    hide WriteName, LabelCost, Cost, Unescape, Rest, Next, Fresh;
    var w := WriteName(name, at, table).value;
    if name == [] || Compressible(name, table) {
      NothingFresh(name, at, table);
      assert table.Keys + Fresh(w) == table.Keys;
    } else {
      Unfold(name, at, table);
      var w' := WriteName(Rest(name), Next(name, at), table).value;
      NamePays(Rest(name), Next(name, at), table);
      CostAdded(table.Keys + Fresh(w'), name);
      assert table.Keys + Fresh(w) == table.Keys + Fresh(w') + {name};
    }
  }

  // ---------- Two packets, one with more names in its table ----------

  /** The names that the fuller table has and the other one lacks. */
  function Missing(full: set<Text>, few: set<Text>): set<Text> {
    full - few
  }

  /** A name that the fuller table holds: the other packet writes at most the names it lacks, and two bytes. */
  lemma {:induction false} HeldName(name: Text, at: nat, few: NameTable, full: set<Text>)
    requires Closed(full) && Near(few) && few.Keys <= full && (name == [] || name in full)
    ensures WriteName(name, at, few).Some?
    ensures var w := WriteName(name, at, few).value;
            && Fresh(w) <= full
            && |w.bytes| + Cost(Missing(full, few.Keys + Fresh(w))) <= 2 + Cost(Missing(full, few.Keys))
    decreases |name|
  {
    hide Cost, LabelCost, WriteName;
    if name == [] || name in few {
      NothingFresh(name, at, few);
      assert few.Keys + {} == few.Keys;
    } else {
      HeldLabel(name, at, few, full);
    }
  }

  lemma {:induction false} HeldLabel(name: Text, at: nat, few: NameTable, full: set<Text>)
    requires Closed(full) && Near(few) && few.Keys <= full && name != [] && name in full && name !in few
    ensures WriteName(name, at, few).Some?
    ensures var w := WriteName(name, at, few).value;
            && Fresh(w) <= full
            && |w.bytes| + Cost(Missing(full, few.Keys + Fresh(w))) <= 2 + Cost(Missing(full, few.Keys))
    decreases |name|, 0
  {
    hide Cost, LabelCost, WriteName, Unescape, Rest, Next, Fresh;
    Unfold(name, at, few);
    HeldName(Rest(name), Next(name, at), few, full);
    var w, w' := WriteName(name, at, few).value, WriteName(Rest(name), Next(name, at), few).value;
    if name in Fresh(w') {
      FreshIsShorter(Rest(name), Next(name, at), few, name);
    }
    var before, after := Missing(full, few.Keys + Fresh(w')), Missing(full, few.Keys + Fresh(w));
    CostOfOne(before, name);
    assert before - {name} == after;
  }

  /** Any name: the packet with fewer names writes at most the names it lacks more than the fuller one. */
  lemma {:induction false} AnyName(name: Text, at: nat, few: NameTable, at': nat, full: NameTable)
    requires Closed(full.Keys) && Near(few) && few.Keys <= full.Keys && WriteName(name, at', full).Some?
    ensures WriteName(name, at, few).Some?
    ensures var w, w' := WriteName(name, at, few).value, WriteName(name, at', full).value;
            && Fresh(w) <= full.Keys + Fresh(w')
            && |w.bytes| + Cost(Missing(full.Keys + Fresh(w'), few.Keys + Fresh(w))) <=
               |w'.bytes| + Cost(Missing(full.Keys, few.Keys))
    decreases |name|
  {
    hide Cost, LabelCost, WriteName;
    var w' := WriteName(name, at', full).value;
    if name == [] {
      NothingFresh(name, at, few);
      NothingFresh(name, at', full);
      assert few.Keys + {} == few.Keys && full.Keys + {} == full.Keys;
    } else if name in full {
      HeldName(name, at, few, full.Keys);
      AtLeastTwo(name, at', full);
      var w := WriteName(name, at, few).value;
      NothingNew(name, at', full);
      assert full.Keys + Fresh(w') == full.Keys;
    } else {
      NewName(name, at, few, at', full);
    }
  }

  lemma AtLeastTwo(name: Text, at: nat, table: NameTable)
    requires name != [] && WriteName(name, at, table).Some?
    ensures |WriteName(name, at, table).value.bytes| >= 2
  {
  }

  /** Writing out a name the table holds, too far away for a pointer, makes no new entry. */
  lemma {:induction false} NothingNew(name: Text, at: nat, table: NameTable)
    requires Closed(table.Keys) && (name == [] || name in table) && WriteName(name, at, table).Some?
    ensures Fresh(WriteName(name, at, table).value) <= table.Keys
    decreases |name|
  {
    if name == [] || Compressible(name, table) {
      NothingFresh(name, at, table);
    } else {
      Unfold(name, at, table);
      NothingNew(Rest(name), Next(name, at), table);
    }
  }

  lemma {:induction false} NewName(name: Text, at: nat, few: NameTable, at': nat, full: NameTable)
    requires Closed(full.Keys) && Near(few) && few.Keys <= full.Keys && WriteName(name, at', full).Some?
    requires name != [] && name !in full
    ensures WriteName(name, at, few).Some?
    ensures var w, w' := WriteName(name, at, few).value, WriteName(name, at', full).value;
            && Fresh(w) <= full.Keys + Fresh(w')
            && |w.bytes| + Cost(Missing(full.Keys + Fresh(w'), few.Keys + Fresh(w))) <=
               |w'.bytes| + Cost(Missing(full.Keys, few.Keys))
    decreases |name|, 0
  {
    hide Cost, LabelCost, WriteName, Unescape, Rest, Next, Fresh;
    Unfold(name, at', full);
    var next, next' := Next(name, at), Next(name, at');
    AnyName(Rest(name), next, few, next', full);
    Unfold(name, at, few);
    var w, w' := WriteName(name, at, few).value, WriteName(name, at', full).value;
    var v, v' := WriteName(Rest(name), next, few).value, WriteName(Rest(name), next', full).value;
    CostGrows(Missing(full.Keys + Fresh(w'), few.Keys + Fresh(w)), Missing(full.Keys + Fresh(v'), few.Keys + Fresh(v)));
  }

  // ---------- Whole records ----------

  lemma ExtendedKeys(table: NameTable, w: NameBytes)
    ensures Extended(table, w).Keys == table.Keys + Fresh(w)
  {
  }

  /** The names of the table were all written into the packet. */
  ghost predicate Paid(table: NameTable, size: nat) {
    Closed(table.Keys) && HEADER_SIZE + Cost(table.Keys) <= size
  }

  lemma NamePaid(name: Text, at: nat, table: NameTable, size: nat)
    requires Paid(table, size) && WriteName(name, at, table).Some?
    ensures var w := WriteName(name, at, table).value; Paid(Extended(table, w), size + |w.bytes|)
  {
    hide Cost, Closed, WriteName;
    NamePays(name, at, table);
    ExtendedKeys(table, WriteName(name, at, table).value);
  }

  lemma DataPaid(data: Rdata, at: nat, table: NameTable, size: nat)
    requires Paid(table, size) && WriteData(data, at, table).Some?
    ensures var w := WriteData(data, at, table).value; Paid(Extended(table, w), size + |w.bytes|)
  {
    hide WriteName, Paid, Extended;
    match data
    case NameData(target) => NamePaid(target, at, table, size);
    case SrvData(p, w, o, target) =>
      NamePaid(target, at + 6, table, size);
      SameEntries(table, WriteName(target, at + 6, table).value, WriteData(data, at, table).value, size);
    case _ =>
      SameEntries(table, NameBytes([], map[]), WriteData(data, at, table).value, size);
  }

  lemma SameEntries(table: NameTable, w: NameBytes, longer: NameBytes, size: nat)
    requires w.entries == longer.entries && |w.bytes| <= |longer.bytes|
    requires if w.entries == map[] then Paid(table, size) else Paid(Extended(table, w), size + |w.bytes|)
    ensures Paid(Extended(table, longer), size + |longer.bytes|)
  {
    hide Cost, Closed;
    if w.entries == map[] {
      assert Extended(table, longer) == table;
    } else {
      assert Extended(table, longer) == Extended(table, w);
    }
  }

  /** Every packet that keys and records were appended to has paid for the names in its table. */
  lemma ItemPaid(item: Item, at: nat, table: NameTable, size: nat)
    requires Paid(table, size) && WriteItem(item, at, table).Some?
    ensures var w := WriteItem(item, at, table).value; Paid(Extended(table, w), size + |w.bytes|)
  {
    hide Cost, Closed, WriteName, WriteData;
    match item
    case Question(key, unicast) =>
      NamePaid(key.name, at, table, size);
    case Answer(r, flush, maxTtl) =>
      var n := WriteName(r.key.name, at, table).value;
      NamePaid(r.key.name, at, table, size);
      var next, named := at + |n.bytes| + RECORD_HEADER_SIZE, DataTable(n, table);
      DataPaid(r.data, next, named, size + |n.bytes|);
      MergeAssoc(WriteData(r.data, next, named).value.entries, n.entries, table);
  }

  lemma ScanShrinks(name: Text)
    requires Scan(name).Some?
    ensures var u := Scan(name).value; |u.content| + |u.rest| + (if u.rest == [] then 0 else 1) <= |name|
  {
  }

  /** On the wire a name takes at most two bytes more than as text, and its entries lie inside it. */
  lemma {:induction false} NamePlaces(name: Text, at: nat, table: NameTable)
    requires WriteName(name, at, table).Some?
    ensures var w := WriteName(name, at, table).value;
            |w.bytes| <= |name| + 2 && forall k :: k in w.entries ==> w.entries[k] < at + |w.bytes|
    decreases |name|
  {
    if name != [] && !Compressible(name, table) {
      var u := Unescape(name, LABEL_MAX).value;
      var next := at + 1 + |u.content|;
      ScanShrinks(name);
      NamePlaces(u.rest, next, table);
      hide Unescape, Scan;
      var w := WriteName(u.rest, next, table).value;
      assert WriteName(name, at, table).value == WithLabel(name, u.content, at, w);
    }
  }

  lemma EmptyIsPaid()
    ensures Paid(map[], HEADER_SIZE)
  {
    var none: NameTable := map[];
    assert none.Keys == {};
  }

  lemma DataFits(data: Rdata, at: nat, few: NameTable, at': nat, full: NameTable)
    requires Closed(full.Keys) && Near(few) && few.Keys <= full.Keys && WriteData(data, at', full).Some?
    ensures WriteData(data, at, few).Some?
    ensures |WriteData(data, at, few).value.bytes| <=
            |WriteData(data, at', full).value.bytes| + Cost(Missing(full.Keys, few.Keys))
  {
    hide WriteName, Closed, Near, Cost, Missing;
    match data
    case NameData(target) => AnyName(target, at, few, at', full);
    case SrvData(_, _, _, target) => AnyName(target, at + 6, few, at' + 6, full);
    case _ =>
  }

  lemma DataIsShort(data: Rdata, at: nat, table: NameTable)
    requires ValidData(data) && WriteData(data, at, table).Some? && (data.NameData? || data.SrvData?)
    ensures |WriteData(data, at, table).value.bytes| < 0x1_0000
  {
    match data
    case NameData(target) => NamePlaces(target, at, table);
    case SrvData(_, _, _, target) => NamePlaces(target, at + 6, table);
  }

  /**
   A record that can be appended to a packet in use can be appended to an empty one of the same size: what it
   saves by pointing to names of the packet is less than what those names take up there.
   */
  lemma RecordFits(r: Record, flush: bool, maxTtl: uint32, size: nat, table: NameTable)
    requires ValidRecord(r) && Paid(table, size) && WriteRecord(r, flush, maxTtl, size, table).Some?
    ensures WriteRecord(r, flush, maxTtl, HEADER_SIZE, map[]).Some?
    ensures HEADER_SIZE + |WriteRecord(r, flush, maxTtl, HEADER_SIZE, map[]).value.bytes| <=
            size + |WriteRecord(r, flush, maxTtl, size, table).value.bytes|
  {
    hide WriteName, Closed, Cost, WriteData, ValidData;
    var few: NameTable := map[];
    AnyName(r.key.name, HEADER_SIZE, few, size, table);
    NamePays(r.key.name, size, table);
    NamePlaces(r.key.name, HEADER_SIZE, few);
    var n, n' := WriteName(r.key.name, HEADER_SIZE, few).value, WriteName(r.key.name, size, table).value;
    ExtendedKeys(few, n);
    ExtendedKeys(table, n');
    assert Missing(table.Keys, few.Keys) == table.Keys;
    var at, at' := HEADER_SIZE + |n.bytes| + RECORD_HEADER_SIZE, size + |n'.bytes| + RECORD_HEADER_SIZE;
    DataFits(r.data, at, DataTable(n, few), at', DataTable(n', table));
    DataFitsLength(r.data, at, DataTable(n, few), at', DataTable(n', table));
  }

  lemma DataFitsLength(data: Rdata, at: nat, few: NameTable, at': nat, full: NameTable)
    requires ValidData(data) && WriteData(data, at', full).Some? && WriteData(data, at, few).Some?
    requires |WriteData(data, at', full).value.bytes| < 0x1_0000
    ensures |WriteData(data, at, few).value.bytes| < 0x1_0000
  {
    hide WriteName;
    if data.NameData? || data.SrvData? {
      DataIsShort(data, at, few);
    }
  }
}
