/** The packet buffer: appending with rollback, and the reading cursor. */
module Packets {
  import opened Bytes
  import opened Names
  import opened StringLists
  import opened Records
  import opened NameWire
  import opened RecordWire

  const EXTRA_SIZE := 48
  const PACKET_SIZE_MAX := HEADER_SIZE + 256 + 2 + 2 + 4 + 2 + 0xFFFF
  const FIELD_FLAGS := 1
  const FIELD_QDCOUNT := 2
  const FIELD_ANCOUNT := 3
  const FLAG_QR := 0x8000
  const FLAG_TC := 0x200
  const FLAG_AA := 0x400

  /** The table entries whose offset lies below `n`. */
  function Below(table: NameTable, n: nat): NameTable {
    map k | k in table && table[k] < n :: table[k]
  }

  /** A 16-bit field written over the bytes at offset `i`. */
  function WithU16(d: Text, i: nat, v: uint16): (r: Text)
    requires i + 2 <= |d|
    ensures |r| == |d|
  {
    d[..i] + U16(v) + d[i + 2..]
  }

  lemma U16Back(d: Text, i: nat, v: uint16, k: nat)
    requires i + 2 <= |d| && k + 2 <= |d| && (k == i || k + 2 <= i || i + 2 <= k)
    ensures ReadU16(WithU16(d, i, v), k) == if k == i then v else ReadU16(d, k)
  {
    var e := WithU16(d, i, v);
    if k == i {
      assert e[i..i + 2] == U16(v);
      U16RoundTrip(v, e, i);
    } else {
      assert e[k] == d[k] && e[k + 1] == d[k + 1];
    }
  }

  // ---------- What a partly written name still needs ----------

  /** The whole name is what was written so far followed by what is left to write. */
  predicate Remains(whole: Option<NameBytes>, done: NameBytes, left: Option<NameBytes>) {
    && (whole.Some? <==> left.Some?)
    && (left.Some? ==> whole.value.bytes == done.bytes + left.value.bytes)
    && (left.Some? ==> whole.value.entries == left.value.entries + done.entries)
  }

  /** Entries made by a name that is being written: longer suffixes, at offsets from `start` on. */
  predicate Made(entries: NameTable, start: nat, end: nat, rest: Text) {
    forall k :: k in entries ==> start <= entries[k] < end && |k| > |rest|
  }

  function Advanced(done: NameBytes, rest: Text, l: Text, at: nat): NameBytes
    requires |l| < LABEL_MAX
  {
    NameBytes(done.bytes + ([|l|] + l), done.entries[rest := at])
  }

  /** The name is well formed and fits. */
  predicate Possible(whole: Option<NameBytes>, start: nat, limit: nat) {
    whole.Some? && start + |whole.value.bytes| <= limit
  }

  lemma WriteNameUnfolds(rest: Text, at: nat, table: NameTable, next: nat)
    requires rest != [] && !Compressible(rest, table)
    ensures var u := Unescape(rest, LABEL_MAX);
            && (u.None? ==> WriteName(rest, at, table).None?)
            && (u.Some? && next == at + 1 + |u.value.content| ==>
                  var w := WriteName(u.value.rest, next, table);
                  && (WriteName(rest, at, table).Some? <==> w.Some?)
                  && (w.Some? ==> WriteName(rest, at, table).value.bytes == [|u.value.content|] + u.value.content + w.value.bytes)
                  && (w.Some? ==> WriteName(rest, at, table).value.entries == w.value.entries[rest := at]))
  {
  }

  /** One more label moves from what is left to what is done; `next` is the offset after it. */
  lemma LabelDone(whole: Option<NameBytes>, done: NameBytes, rest: Text, l: Text, after: Text, at: nat, start: nat,
                  table: NameTable, next: nat)
    requires rest != [] && !Compressible(rest, table) && start <= at && Made(done.entries, start, at, rest)
    requires Remains(whole, done, WriteName(rest, at, table))
    requires Unescape(rest, LABEL_MAX) == Some(Scanned(l, after)) && |l| < LABEL_MAX && next == at + 1 + |l|
    ensures Remains(whole, Advanced(done, rest, l, at), WriteName(after, next, table))
    ensures Made(Advanced(done, rest, l, at).entries, start, next, after)
  {
    WriteNameUnfolds(rest, at, table, next);
    var w := WriteName(after, next, table);
    if w.Some? {
      Assoc(done.bytes, [|l|] + l, w.value.bytes);
      MoveEntry(w.value.entries, done.entries, rest, at);
    }
  }

  lemma MoveEntry(left: NameTable, done: NameTable, k: Text, at: nat)
    requires k !in done
    ensures left[k := at] + done == left + done[k := at]
  {
  }

  /** hashmap_insert of the suffix just written: an entry that is there already stays. */
  lemma InsertEntry(table: NameTable, done: NameTable, k: Text, at: nat)
    requires k !in done
    ensures (if k in done + table then done + table else (done + table)[k := at]) == done[k := at] + table
  {
  }

  /** Dropping what lies at or after `start` undoes the entries made since. */
  lemma UndoEntries(table: NameTable, made: NameTable, start: nat)
    requires forall k :: k in table ==> table[k] < start
    requires forall k :: k in made ==> made[k] >= start
    ensures Below(made + table, start) == table
  {
  }

  class Packet {
    const data: array<byte>
    var size: nat
    var rindex: nat
    var table: NameTable

    /** Every table entry lies after the header and inside the packet. */
    ghost predicate Valid()
      reads this
    {
      && HEADER_SIZE <= size <= data.Length && rindex <= size
      && forall k :: k in table ==> HEADER_SIZE <= table[k] < size
    }

    ghost function Contents(): Text
      reads this, data
      requires size <= data.Length
    {
      data[..size]
    }

    /** avahi_dns_packet_new: an empty packet with a zeroed header. */
    constructor (mtu: nat)
      ensures Valid() && fresh(data)
      ensures Contents() == [0, 0, 0, 0, 0, 0, 0, 0, 0, 0, 0, 0]
      ensures size == rindex == HEADER_SIZE && table == map[]
      ensures data.Length == MaxSize(mtu)
    {
      data := new byte[MaxSize(mtu)](_ => 0);
      size, rindex, table := HEADER_SIZE, HEADER_SIZE, map[];
    }

    static function MaxSize(mtu: nat): (r: nat)
      ensures r >= HEADER_SIZE
      ensures mtu >= 60 ==> r == mtu - 48
    {
      var m := if mtu == 0 then PACKET_SIZE_MAX else if mtu >= EXTRA_SIZE then mtu - EXTRA_SIZE else 0;
      if m < HEADER_SIZE then HEADER_SIZE else m
    }

    // ---------- Header fields ----------

    method SetField(idx: nat, v: uint16)
      requires Valid() && idx < HEADER_SIZE && 2 * idx + 2 <= size
      modifies data
      ensures Valid()
      ensures Contents() == WithU16(old(Contents()), 2 * idx, v)
    {
      data[2 * idx], data[2 * idx + 1] := v / 256, v % 256;
    }

    function GetField(idx: nat): uint16
      reads this, data
      requires Valid() && idx < 6
    {
      ReadU16(data[..size], 2 * idx)
    }

    // ---------- Appending ----------

    /** avahi_dns_packet_extend followed by filling the new bytes. */
    method AppendBytes(b: Text) returns (ok: bool)
      requires Valid()
      modifies `size, data
      ensures Valid()
      ensures ok <==> old(size) + |b| <= data.Length
      ensures Contents() == if ok then old(Contents()) + b else old(Contents())
    {
      if size + |b| > data.Length {
        return false;
      }
      var start := size;
      ghost var before := Contents();
      size := size + |b|;
      forall i | 0 <= i < |b| {
        data[start + i] := b[i];
      }
      assert data[..start] == before;
      assert data[start..size] == b;
      assert Contents() == data[..start] + data[start..size];
      ok := true;
    }

    method CleanupNameTable()
      modifies `table
      ensures table == Below(old(table), size)
    {
      table := map k | k in table && table[k] < size :: table[k];
    }

    /** Going back to an earlier size, and forgetting the names written since. */
    method Rollback(start: nat)
      requires Valid() && HEADER_SIZE <= start <= size && rindex <= start
      modifies `size, `table
      ensures Valid() && size == start
      ensures Contents() == old(Contents())[..start]
      ensures table == Below(old(table), start)
    {
      size := start;
      assert old(data[..size])[..start] == data[..start];
      CleanupNameTable();
    }

    /**
     avahi_dns_packet_append_name. It succeeds exactly when the name is well formed and all of
     it fits; a compression pointer that does not fit is not rolled back here.
     */
    method AppendName(name: Text) returns (ok: bool)
      requires Valid()
      modifies `size, `table, data
      ensures Valid()
      ensures var w := old(WriteName(name, size, table));
              && (ok <==> Possible(w, old(size), data.Length))
              && (ok ==> Contents() == old(Contents()) + w.value.bytes && table == Extended(old(table), w.value))
      ensures size >= old(size) && Contents()[..old(size)] == old(Contents())
      ensures Below(table, old(size)) == old(table)
    {
      var start, rest := size, name;
      ghost var before, was := Contents(), table;
      ghost var whole := WriteName(name, size, table);
      ghost var done := NameBytes([], map[]);
      NothingDone(whole);
      assert before + [] == before && map[] + was == was;
      ok := true;
      while rest != [] && ok
        invariant Writing(rest, start, before, was, done)
        invariant ok ==> Remains(whole, done, WriteName(rest, size, was))
        invariant !ok ==> !Possible(whole, start, data.Length)
        decreases |rest|, ok
      {
        if rest in table && table[rest] < POINTER_LIMIT {
          ok := AppendPointer(rest, start, before, was, done, whole);
          return;
        }
        ok, rest, done := AppendNext(rest, start, before, was, done, whole);
      }
      if ok {
        ok := AppendRoot(start, before, was, done, whole);
      }
      if !ok {
        Undo(start, before, done.bytes, was, done.entries);
      }
    }

    /** The packet holds what it held `before`, and the part of the name written so far. */
    ghost predicate Writing(rest: Text, start: nat, before: Text, was: NameTable, done: NameBytes)
      reads this, data
    {
      && Valid() && HEADER_SIZE <= start && rindex <= start
      && |before| == start && size == start + |done.bytes|
      && Contents() == before + done.bytes && table == done.entries + was
      && Made(done.entries, start, size, rest) && (forall k :: k in was ==> was[k] < start)
    }

    /** The next label of the name, and the table entry for the suffix it starts. */
    method AppendNext(rest: Text, start: nat, ghost before: Text, ghost was: NameTable, ghost done: NameBytes,
                      ghost whole: Option<NameBytes>)
      returns (ok: bool, after: Text, ghost next: NameBytes)
      requires rest != [] && Writing(rest, start, before, was, done)
      requires !(rest in table && table[rest] < POINTER_LIMIT)
      requires Remains(whole, done, WriteName(rest, size, was))
      modifies `size, `table, data
      ensures Writing(after, start, before, was, next)
      ensures ok ==> |after| < |rest| && Remains(whole, next, WriteName(after, size, was))
      ensures !ok ==> after == rest && !Possible(whole, start, data.Length)
    {
      ghost var pos := size;
      NoPointer(rest, was, table, done.entries);
      var u := UnescapeLabel(rest, LABEL_MAX);
      if u.None? {
        WriteNameUnfolds(rest, pos, was, 0);
        return false, rest, done;
      }
      var l;
      l, after := u.value.content, u.value.rest;
      ghost var end := pos + 1 + |l|;
      LabelDone(whole, done, rest, l, after, pos, start, was, end);
      Assoc(before, done.bytes, [|l|] + l);
      InsertEntry(was, done.entries, rest, pos);
      ok := AppendLabel(rest, l);
      if !ok {
        return false, rest, done;
      }
      assert size == end;
      next := Advanced(done, rest, l, pos);
    }

    /** The zero byte that ends a name. */
    method AppendRoot(start: nat, ghost before: Text, ghost was: NameTable, ghost done: NameBytes,
                      ghost whole: Option<NameBytes>)
      returns (ok: bool)
      requires Writing([], start, before, was, done)
      requires Remains(whole, done, WriteName([], size, was))
      modifies `size, data
      ensures ok <==> Possible(whole, start, data.Length)
      ensures ok ==> Valid() && Contents() == before + whole.value.bytes && table == Extended(was, whole.value)
      ensures ok ==> Below(table, start) == was
      ensures !ok ==> Writing([], start, before, was, done)
    {
      UndoEntries(was, done.entries, start);
      Assoc(before, done.bytes, [0]);
      assert map[] + done.entries == done.entries;
      ok := AppendBytes([0]);
    }

    /** The rest of the name as a pointer to where it stands already. */
    method AppendPointer(rest: Text, start: nat, ghost before: Text, ghost was: NameTable, ghost done: NameBytes,
                         ghost whole: Option<NameBytes>)
      returns (ok: bool)
      requires rest != [] && Writing(rest, start, before, was, done)
      requires rest in table && table[rest] < POINTER_LIMIT
      requires Remains(whole, done, WriteName(rest, size, was))
      modifies `size, data
      ensures Valid()
      ensures ok <==> Possible(whole, start, data.Length)
      ensures ok ==> Contents() == before + whole.value.bytes && table == Extended(was, whole.value)
      ensures size >= start && Contents()[..start] == before && Below(table, start) == was
    {
      FoundPointer(rest, size, was, table, done.entries);
      Assoc(before, done.bytes, Pointer(table[rest]));
      UndoEntries(was, done.entries, start);
      ok := AppendBytes(Pointer(table[rest]));
    }

    /** One label and the table entry for the suffix it starts; an entry that is there already stays. */
    method AppendLabel(suffix: Text, l: Text) returns (ok: bool)
      requires Valid() && 0 <= |l| < LABEL_MAX
      modifies `size, `table, data
      ensures Valid()
      ensures ok <==> old(size) + 1 + |l| <= data.Length
      ensures ok ==> size == old(size) + 1 + |l| && Contents() == old(Contents()) + ([|l|] + l)
      ensures ok ==> table == if suffix in old(table) then old(table) else old(table)[suffix := old(size)]
      ensures !ok ==> size == old(size) && Contents() == old(Contents()) && table == old(table)
    {
      var at := size;
      ok := AppendBytes([|l|] + l);
      if ok && suffix !in table {
        table := table[suffix := at];
      }
    }

    /** The source's `fail:` path: the packet is as it was before the name. */
    method Undo(start: nat, ghost before: Text, ghost added: Text, ghost was: NameTable, ghost made: NameTable)
      requires Valid() && HEADER_SIZE <= start <= size && rindex <= start
      requires |before| == start && Contents() == before + added && table == made + was
      requires forall k :: k in was ==> was[k] < start
      requires forall k :: k in made ==> made[k] >= start
      modifies `size, `table
      ensures Valid() && size == start && Contents() == before && table == was
      ensures Below(table, start) == was
    {
      assert (before + added)[..start] == before;
      UndoEntries(was, made, start);
      Rollback(start);
    }

    /** The state after an append: `w` went in at the end, or nothing changed. */
    twostate predicate Appended(w: Option<NameBytes>, ok: bool)
      reads this, data
    {
      && Valid() && old(Valid())
      && (ok <==> Possible(w, old(size), data.Length))
      && (ok ==> Contents() == old(Contents()) + w.value.bytes && table == Extended(old(table), w.value))
      && (!ok ==> Contents() == old(Contents()) && table == old(table))
    }

    /** Forgetting everything since `start`, whatever had been written. */
    method Forget(start: nat, ghost before: Text, ghost was: NameTable)
      requires Valid() && HEADER_SIZE <= start <= size && rindex <= start
      requires |before| == start && Contents()[..start] == before && Below(table, start) == was
      modifies `size, `table
      ensures Valid() && Contents() == before && table == was
    {
      Rollback(start);
    }

    /** avahi_dns_packet_append_key, all or nothing. */
    method AppendKey(k: Key, unicast: bool) returns (ok: bool)
      requires Valid()
      modifies `size, `table, data
      ensures Appended(old(WriteKey(k, unicast, size, table)), ok)
    {
      var start := size;
      ghost var before, was := Contents(), table;
      ok := AppendName(k.name);
      if ok {
        ok := AppendBytes(U16(k.rtype));
        if ok {
          ok := AppendBytes(U16(if unicast then HighBitSet(k.clazz) else k.clazz));
        }
      }
      if !ok {
        Forget(start, before, was);
      }
    }

    method AppendString(t: Text) returns (ok: bool)
      requires Valid()
      modifies `size, data
      ensures Valid()
      ensures ok <==> old(size) + |CountedString(t)| <= data.Length
      ensures Contents() == if ok then old(Contents()) + CountedString(t) else old(Contents())
    {
      ok := AppendBytes([|Clip(t)|] + Clip(t));
    }

    /** append_rdata; what does not fit is left for the caller to roll back. */
    method AppendData(rdata: Rdata) returns (ok: bool)
      requires Valid()
      modifies `size, `table, data
      ensures Valid()
      ensures var w := old(WriteData(rdata, size, table));
              && (ok <==> Possible(w, old(size), data.Length))
              && (ok ==> Contents() == old(Contents()) + w.value.bytes && table == Extended(old(table), w.value))
      ensures size >= old(size) && Contents()[..old(size)] == old(Contents())
      ensures Below(table, old(size)) == old(table)
    {
      UndoEntries(table, map[], size);
      assert map[] + table == table;
      match rdata
      case NameData(target) => ok := AppendName(target);
      case SrvData(p, w, o, target) => ok := AppendSrv(p, w, o, target);
      case HinfoData(cpu, os) =>
        ok := AppendString(cpu);
        if ok {
          ok := AppendString(os);
        }
      case TxtData(strings) => ok := AppendBytes(Serialized(strings));
      case AData(address) => ok := AppendBytes(address);
      case AaaaData(address) => ok := AppendBytes(address);
      case GenericData(bytes) => ok := AppendBytes(bytes);
    }

    method AppendSrv(p: uint16, w: uint16, o: uint16, target: Text) returns (ok: bool)
      requires Valid()
      modifies `size, `table, data
      ensures Valid()
      ensures var x := old(WriteData(SrvData(p, w, o, target), size, table));
              && (ok <==> Possible(x, old(size), data.Length))
              && (ok ==> Contents() == old(Contents()) + x.value.bytes && table == Extended(old(table), x.value))
      ensures size >= old(size) && Contents()[..old(size)] == old(Contents())
      ensures Below(table, old(size)) == old(table)
    {
      UndoEntries(table, map[], size);
      assert map[] + table == table;
      ghost var before := Contents();
      ok := AppendNumbers(p, w, o);
      if ok {
        ghost var n := WriteName(target, size, table);
        if n.Some? {
          Assoc(before, SrvFields(p, w, o), n.value.bytes);
        }
        SrvImage(p, w, o, target, old(size), size, table);
        ok := AppendName(target);
      }
    }

    method AppendNumbers(p: uint16, w: uint16, o: uint16) returns (ok: bool)
      requires Valid()
      modifies `size, data
      ensures Valid()
      ensures ok <==> old(size) + 6 <= data.Length
      ensures ok ==> size == old(size) + 6 && Contents() == old(Contents()) + SrvFields(p, w, o)
      ensures size >= old(size) && Contents()[..old(size)] == old(Contents())
    {
      ok := AppendBytes(U16(p));
      if ok {
        ok := AppendBytes(U16(w));
        if ok {
          ok := AppendBytes(U16(o));
        }
      }
    }

    /** The fixed fields of a record, with no length yet. */
    method AppendHeader(rtype: uint16, clazz: uint16, ttl: uint32) returns (ok: bool)
      requires Valid()
      modifies `size, data
      ensures Valid()
      ensures ok <==> old(size) + RECORD_HEADER_SIZE <= data.Length
      ensures ok ==> Contents() == old(Contents()) + RecordHeader(rtype, clazz, ttl, 0)
      ensures size >= old(size) && Contents()[..old(size)] == old(Contents())
    {
      ok := AppendBytes(U16(rtype));
      if ok {
        ok := AppendBytes(U16(clazz));
        if ok {
          ok := AppendBytes(U32(ttl));
          if ok {
            ok := AppendBytes(U16(0));
          }
        }
      }
    }

    /** Filling in the length field once the data is there. */
    method PatchU16(i: nat, v: uint16)
      requires Valid() && i + 2 <= size
      modifies data
      ensures Valid() && Contents() == WithU16(old(Contents()), i, v)
    {
      data[i], data[i + 1] := v / 256, v % 256;
    }

    /**
     avahi_dns_packet_append_record, all or nothing: the length field is filled in last, over
     the zero written for it.
     */
    method AppendRecord(r: Record, flush: bool, maxTtl: uint32) returns (ok: bool)
      requires Valid()
      modifies `size, `table, data
      ensures Appended(old(WriteRecord(r, flush, maxTtl, size, table)), ok)
    {
      var start := size;
      ghost var before, was := Contents(), table;
      ghost var whole := WriteRecord(r, flush, maxTtl, size, table);
      ok := AppendName(r.key.name);
      ghost var nameEnd, named := size, table;
      if ok {
        ok := AppendHeader(r.key.rtype, if flush then HighBitSet(r.key.clazz) else HighBitClear(r.key.clazz),
                           WireTtl(r.ttl, maxTtl));
        if ok {
          ok := AppendBody(r, flush, maxTtl, start, before, was, nameEnd);
        } else {
          RecordTooLong(r, flush, maxTtl, start, was, nameEnd);
        }
      } else {
        RecordTooLong(r, flush, maxTtl, start, was, nameEnd);
      }
      if !ok {
        Forget(start, before, was);
      }
    }

    /** The data of a record, and then its length. */
    method AppendBody(r: Record, flush: bool, maxTtl: uint32, ghost start: nat, ghost before: Text,
                      ghost was: NameTable, ghost nameEnd: nat)
      returns (ok: bool)
      requires Valid() && HEADER_SIZE <= start && rindex <= start == |before|
      requires WriteName(r.key.name, start, was).Some?
      requires var n := WriteName(r.key.name, start, was).value;
               && nameEnd == start + |n.bytes| && table == Extended(was, n)
               && Contents() == before + n.bytes + HeaderOf(r, flush, maxTtl, 0)
      requires Below(table, start) == was
      modifies `size, `table, data
      ensures Valid()
      ensures ok <==> Possible(WriteRecord(r, flush, maxTtl, start, was), start, data.Length)
      ensures ok ==> var w := WriteRecord(r, flush, maxTtl, start, was).value;
                     Contents() == before + w.bytes && table == Extended(was, w)
      ensures size >= start && Contents()[..start] == before && Below(table, start) == was
    {
      var lengthAt, dataAt := size - 2, size;
      ghost var named, front := table, Contents();
      RecordImage(r, flush, maxTtl, start, was, nameEnd, size);
      ok := AppendData(r.data);
      BelowBoth(table, named, start, dataAt);
      if ok {
        var length := size - dataAt;
        if length >= 0x1_0000 {
          ok := false;
        } else {
          ghost var n, x := WriteName(r.key.name, start, was).value, WriteData(r.data, dataAt, named).value;
          PatchLength(lengthAt, length, before, n.bytes, r, flush, maxTtl, x.bytes);
          MergeAssoc(x.entries, n.entries, was);
        }
      }
      assert front[..start] == before;
    }

    /** The length goes over the zero that was written for it. */
    method PatchLength(lengthAt: nat, length: uint16, ghost before: Text, ghost name: Text, ghost r: Record,
                       ghost flush: bool, ghost maxTtl: uint32, ghost x: Text)
      requires Valid() && lengthAt + 2 <= size && length == |x|
      requires lengthAt == |before| + |name| + 8
      requires Contents() == before + name + HeaderOf(r, flush, maxTtl, 0) + x
      modifies data
      ensures Valid()
      ensures Contents() == before + (name + (HeaderOf(r, flush, maxTtl, |x|) + x))
    {
      PatchedRecord(before, name, r, flush, maxTtl, x);
      PatchU16(lengthAt, length);
    }

    // ---------- Reading ----------

    /** consume_labels and the cursor: the name at the cursor, if it can be read into `limit` bytes. */
    method ConsumeName(limit: nat) returns (r: Option<Text>)
      requires Valid() && limit > 0
      modifies `rindex
      ensures Valid()
      ensures var n := ReadName(Contents(), old(rindex), limit);
              && (r.Some? <==> n.Some?)
              && (r.Some? ==> r.value == n.value.0 && rindex == old(rindex) + n.value.1)
              && (r.None? ==> rindex == old(rindex))
    {
      hide ReadLabels;
      var idx: nat, ret: nat, compressed, first, out: Text, left := rindex, 0, false, true, [], limit;
      ghost var d := Contents();
      ghost var whole := ReadLabels(d, rindex, LABELS_MAX);
      ghost var acc: seq<Text> := [];
      ghost var fuel: nat := LABELS_MAX;
      NothingRead(whole);
      for i := 0 to LABELS_MAX
        invariant Valid() && i + fuel == LABELS_MAX && rindex == old(rindex) && (first <==> acc == [])
        invariant out == Join(acc) && left == limit - |out| && left > 0
        invariant Follows(whole, acc, ret, compressed, ReadLabels(d, idx, fuel))
      {
        if idx + 1 > size {
          ReadStep(whole, acc, ret, compressed, d, idx, fuel);
          return None;
        }
        var n: int := data[idx];
        assert n == d[idx];
        if n == 0 {
          ReadStep(whole, acc, ret, compressed, d, idx, fuel);
          if !compressed {
            ret := ret + 1;
          }
          NameComplete(whole, acc);
          rindex := rindex + ret;
          return Some(out);
        } else if n <= 63 {
          var ok, l;
          ok, l, out, left := TakeLabel(idx, first, out, left, limit, whole, acc, ret, compressed, fuel);
          if !ok {
            return None;
          }
          acc, first := acc + [l], false;
          idx, ret := idx + 1 + |l|, if compressed then ret else ret + 1 + |l|;
        } else if n >= 192 {
          ReadStep(whole, acc, ret, compressed, d, idx, fuel);
          if idx + 2 > size {
            return None;
          }
          var high: int, low: int := data[idx] - 192, data[idx + 1];
          var target := high * 256 + low;
          assert target == PointerAt(d, idx);
          if target < HEADER_SIZE || target >= idx {
            return None;
          }
          idx, ret, compressed := target, if compressed then ret else ret + 2, true;
        } else {
          ReadStep(whole, acc, ret, compressed, d, idx, fuel);
          return None;
        }
        fuel := fuel - 1;
      }
      return None;
    }

    /** One uncompressed label: it must lie inside the packet and its escaped form must fit. */
    method TakeLabel(idx: nat, first: bool, text: Text, left: nat, limit: nat, ghost whole: Option<Found>,
                     ghost acc: seq<Text>, ghost ret: nat, ghost compressed: bool, ghost fuel: nat)
      returns (ok: bool, l: Text, out: Text, rest: nat)
      requires Valid() && idx < size && 0 < data[idx] <= 63 && fuel > 0
      requires text == Join(acc) && left == limit - |text| && left > 0 && (first <==> acc == [])
      requires Follows(whole, acc, ret, compressed, ReadLabels(Contents(), idx, fuel))
      ensures ok ==> out == Join(acc + [l]) && rest == limit - |out| && rest > 0
      ensures ok ==> Follows(whole, acc + [l], if compressed then ret else ret + 1 + |l|, compressed,
                             ReadLabels(Contents(), idx + 1 + |l|, fuel - 1))
      ensures !ok ==> whole.None? || |Join(whole.value.labels)| >= limit
    {
      ghost var d := Contents();
      var n: int := data[idx];
      l, out, rest := [], text, left;
      if idx + 1 + n > size {
        ReadStep(whole, acc, ret, compressed, d, idx, fuel);
        return false, l, out, rest;
      }
      l := data[idx + 1..idx + 1 + n];
      assert d[idx + 1..idx + 1 + n] == l;
      LabelStep(whole, acc, ret, compressed, d, idx, fuel, l);
      ok, out, rest := EscapeNext(l, first, text, left, limit, acc);
      if !ok {
        NameTooLong(whole, acc, l, limit);
      }
    }

    method ConsumeUint16() returns (r: Option<uint16>)
      requires Valid()
      modifies `rindex
      ensures Valid()
      ensures r.Some? <==> old(rindex) + 2 <= size
      ensures r.Some? ==> r.value == ReadU16(Contents(), old(rindex)) && rindex == old(rindex) + 2
      ensures r.None? ==> rindex == old(rindex)
    {
      if rindex + 2 > size {
        return None;
      }
      r := Some(ReadU16(data[..size], rindex));
      rindex := rindex + 2;
    }

    method ConsumeUint32() returns (r: Option<uint32>)
      requires Valid()
      modifies `rindex
      ensures Valid()
      ensures r.Some? <==> old(rindex) + 4 <= size
      ensures r.Some? ==> r.value == ReadU32(Contents(), old(rindex)) && rindex == old(rindex) + 4
      ensures r.None? ==> rindex == old(rindex)
    {
      if rindex + 4 > size {
        return None;
      }
      r := Some(ReadU32(data[..size], rindex));
      rindex := rindex + 4;
    }

    method ConsumeBytes(l: nat) returns (r: Option<Text>)
      requires Valid()
      modifies `rindex
      ensures Valid()
      ensures r.Some? <==> old(rindex) + l <= size
      ensures r.Some? ==> r.value == Contents()[old(rindex)..old(rindex) + l] && rindex == old(rindex) + l
      ensures r.None? ==> rindex == old(rindex)
    {
      if rindex + l > size {
        return None;
      }
      assert data[..size][rindex..rindex + l] == data[rindex..rindex + l];
      r := Some(data[rindex..rindex + l]);
      rindex := rindex + l;
    }

    method ConsumeString() returns (r: Option<Text>)
      requires Valid()
      modifies `rindex
      ensures Valid()
      ensures var n := ReadString(Contents(), old(rindex));
              && (r.Some? <==> n.Some?)
              && (r.Some? ==> r.value == n.value.0 && rindex == n.value.1)
    {
      if rindex >= size || rindex + 1 + data[rindex] > size {
        return None;
      }
      var k: nat := data[rindex];
      assert data[..size][rindex + 1..rindex + 1 + k] == data[rindex + 1..rindex + 1 + k];
      r := Some(CString(data[rindex + 1..rindex + 1 + k]));
      rindex := rindex + 1 + k;
    }

    /** avahi_dns_packet_consume_key */
    method ConsumeKey() returns (r: Option<KeyRead>)
      requires Valid()
      modifies `rindex
      ensures Valid()
      ensures r == ReadKey(Contents(), old(rindex))
      ensures r.Some? ==> rindex == r.value.next
    {
      ghost var d, i := Contents(), rindex;
      var name := ConsumeName(KEY_NAME_SIZE);
      if name.None? {
        return None;
      }
      var rtype := ConsumeUint16();
      if rtype.None? {
        return None;
      }
      var clazz := ConsumeUint16();
      if clazz.None? {
        return None;
      }
      var normal := NewName(d, i, KEY_NAME_SIZE, name.value);
      if normal.None? {
        return None;
      }
      r := Some(KeyRead(Key(normal.value, HighBitClear(clazz.value), rtype.value), clazz.value >= HIGH_BIT, rindex));
    }

    method ConsumeNameData() returns (r: Option<Rdata>)
      requires Valid()
      modifies `rindex
      ensures Valid()
      ensures var x := NameDataRead(Contents(), old(rindex));
              && (r.Some? <==> x.Some?) && (r.Some? ==> r.value == x.value.data && rindex == x.value.next)
    {
      var name := ConsumeName(DOMAIN_NAME_MAX);
      r := if name.Some? then Some(NameData(name.value)) else None;
    }

    method ConsumeSrvData() returns (r: Option<Rdata>)
      requires Valid()
      modifies `rindex
      ensures Valid()
      ensures var x := SrvDataRead(Contents(), old(rindex));
              && (r.Some? <==> x.Some?) && (r.Some? ==> r.value == x.value.data && rindex == x.value.next)
    {
      var p := ConsumeUint16();
      if p.None? {
        return None;
      }
      var w := ConsumeUint16();
      if w.None? {
        return None;
      }
      var o := ConsumeUint16();
      if o.None? {
        return None;
      }
      var name := ConsumeName(DOMAIN_NAME_MAX);
      r := if name.Some? then Some(SrvData(p.value, w.value, o.value, name.value)) else None;
    }

    method ConsumeHinfoData() returns (r: Option<Rdata>)
      requires Valid()
      modifies `rindex
      ensures Valid()
      ensures var x := HinfoDataRead(Contents(), old(rindex));
              && (r.Some? <==> x.Some?) && (r.Some? ==> r.value == x.value.data && rindex == x.value.next)
    {
      var cpu := ConsumeString();
      if cpu.None? {
        return None;
      }
      var os := ConsumeString();
      r := if os.Some? then Some(HinfoData(cpu.value, os.value)) else None;
    }

    /** parse_rdata: the data and the check that exactly `length` bytes were read. */
    method ConsumeData(rtype: uint16, length: nat) returns (r: Option<Rdata>)
      requires Valid() && rindex + length <= size
      modifies `rindex
      ensures Valid()
      ensures var x := ReadData(Contents(), old(rindex), rtype, length);
              && (r.Some? <==> x.Some? && x.value.next == old(rindex) + length)
              && (r.Some? ==> r.value == x.value.data && rindex == x.value.next)
    {
      var start := rindex;
      if NameType(rtype) {
        r := ConsumeNameData();
      } else if rtype == TYPE_SRV {
        r := ConsumeSrvData();
      } else if rtype == TYPE_HINFO {
        r := ConsumeHinfoData();
      } else if rtype == TYPE_A {
        var b := ConsumeBytes(4);
        r := if b.Some? then Some(AData(b.value)) else None;
      } else if rtype == TYPE_AAAA {
        var b := ConsumeBytes(16);
        r := if b.Some? then Some(AaaaData(b.value)) else None;
      } else {
        var b := ConsumeBytes(length);
        if rtype == TYPE_TXT {
          var strings := Parse(b.value);
          r := if strings.Some? then Some(TxtData(strings.value)) else None;
        } else {
          r := Some(GenericData(b.value));
        }
      }
      if r.Some? && rindex - start != length {
        r := None;
      }
    }

    /** avahi_dns_packet_consume_record */
    method ConsumeRecord() returns (r: Option<RecordRead>)
      requires Valid()
      modifies `rindex
      ensures Valid()
      ensures var x := ReadRecord(Contents(), old(rindex));
              && (r.Some? <==> x.Some?) && (r.Some? ==> r.value == x.value && rindex == x.value.next)
    {
      hide ReadName, ValidData, StoredTtl, HighBitClear;
      ghost var d, i := Contents(), rindex;
      var name := ConsumeName(DOMAIN_NAME_MAX);
      if name.None? {
        return None;
      }
      ghost var j := rindex;
      RecordReadUnfolds(d, i, name.value);
      var h := ConsumeHeader();
      if h.None? || rindex + h.value.length > size {
        return None;
      }
      var owner := NewName(d, i, DOMAIN_NAME_MAX, name.value);
      if owner.None? {
        return None;
      }
      var rdata := ConsumeData(h.value.rtype, h.value.length);
      if rdata.None? || !ValidData(rdata.value) {
        return None;
      }
      var key := Key(owner.value, HighBitClear(h.value.clazz), h.value.rtype);
      r := Some(RecordRead(Record(key, StoredTtl(h.value.ttl), rdata.value), h.value.clazz >= HIGH_BIT, rindex));
    }

    method ConsumeHeader() returns (r: Option<Header>)
      requires Valid()
      modifies `rindex
      ensures Valid()
      ensures r.Some? <==> old(rindex) + RECORD_HEADER_SIZE <= size
      ensures r.Some? ==> r.value == ReadHeader(Contents(), old(rindex)) && rindex == old(rindex) + RECORD_HEADER_SIZE
    {
      var rtype := ConsumeUint16();
      if rtype.None? {
        return None;
      }
      var clazz := ConsumeUint16();
      if clazz.None? {
        return None;
      }
      var ttl := ConsumeUint32();
      if ttl.None? {
        return None;
      }
      var length := ConsumeUint16();
      r := if length.Some? then Some(Header(rtype.value, clazz.value, ttl.value, length.value)) else None;
    }
  }

  lemma RecordReadUnfolds(d: Text, i: nat, name: Text)
    requires var o := ReadName(d, i, DOMAIN_NAME_MAX); o.Some? && o.value.0 == name
    ensures var j := i + ReadName(d, i, DOMAIN_NAME_MAX).value.1;
            && (j + RECORD_HEADER_SIZE > |d| ==> ReadRecord(d, i).None?)
            && (j + RECORD_HEADER_SIZE <= |d| ==>
                  ReadRecord(d, i) == RecordAfterHeader(d, j + RECORD_HEADER_SIZE, ReadHeader(d, j), name))
  {
  }

  /** The name of a new key: what was read, normalized into a buffer of 1014 bytes. */
  method NewName(ghost d: Text, ghost i: nat, ghost limit: nat, text: Text) returns (r: Option<Text>)
    requires limit <= DOMAIN_NAME_MAX
    requires var n := ReadName(d, i, limit); n.Some? && n.value.0 == text
    ensures r == NormalForm(text)
  {
    ReadTextIsShort(d, i, limit);
    var n := NormalizeName(text, DOMAIN_NAME_MAX);
    match n
    case Written(t, _) => r := Some(t);
    case _ => r := None;
  }

  lemma {:induction false} LabelsAreShort(d: Text, i: nat, fuel: nat)
    requires ReadLabels(d, i, fuel).Some?
    ensures ShortLabels(ReadLabels(d, i, fuel).value.labels)
    decreases fuel
  {
    match StepAt(d, i)
    case Label(l) => LabelsAreShort(d, i + 1 + |l|, fuel - 1);
    case Jump(p) => LabelsAreShort(d, p, fuel - 1);
    case _ =>
  }

  /** Text read from the wire is its own normal form, if it has one, so it fits wherever it fitted before. */
  lemma ReadTextIsShort(d: Text, i: nat, limit: nat)
    requires ReadName(d, i, limit).Some?
    ensures var text := ReadName(d, i, limit).value.0;
            IsCString(text) && (NormalForm(text).Some? ==> NormalForm(text) == Some(text))
  {
    var ls := ReadLabels(d, i, LABELS_MAX).value.labels;
    LabelsAreShort(d, i, LABELS_MAX);
    JoinIsCString(ls);
    SplitShort(ls);
  }

  /** What was found so far, followed by what is still to be read. */
  predicate Follows(whole: Option<Found>, acc: seq<Text>, ret: nat, compressed: bool, r: Option<Found>) {
    && (whole.Some? <==> r.Some?)
    && (r.Some? ==> whole.value.labels == acc + r.value.labels)
    && (r.Some? ==> whole.value.used == if compressed then ret else ret + r.value.used)
  }

  lemma NothingRead(r: Option<Found>)
    ensures Follows(r, [], 0, false, r)
  {
    if r.Some? {
      assert [] + r.value.labels == r.value.labels;
    }
  }

  /** One pass of the reading loop. */
  lemma ReadStep(whole: Option<Found>, acc: seq<Text>, ret: nat, compressed: bool, d: Text, i: nat, fuel: nat)
    requires fuel > 0 && Follows(whole, acc, ret, compressed, ReadLabels(d, i, fuel))
    ensures StepAt(d, i).Malformed? ==> whole.None?
    ensures StepAt(d, i).End? ==> whole.Some? && whole.value.labels == acc + []
    ensures StepAt(d, i).End? ==> whole.Some? && whole.value.used == if compressed then ret else ret + 1
    ensures StepAt(d, i).Jump? ==>
              Follows(whole, acc, if compressed then ret else ret + 2, true,
                      ReadLabels(d, StepAt(d, i).target, fuel - 1))
  {
  }

  /** One pass that meets the label `l`. */
  lemma LabelStep(whole: Option<Found>, acc: seq<Text>, ret: nat, compressed: bool, d: Text, i: nat, fuel: nat, l: Text)
    requires fuel > 0 && Follows(whole, acc, ret, compressed, ReadLabels(d, i, fuel))
    requires i < |d| && 0 < d[i] <= 63 && i + 1 + d[i] <= |d| && l == d[i + 1..i + 1 + d[i]]
    ensures Follows(whole, acc + [l], if compressed then ret else ret + 1 + |l|, compressed,
                    ReadLabels(d, i + 1 + |l|, fuel - 1))
    ensures whole.Some? ==> acc + [l] <= whole.value.labels
  {
    assert StepAt(d, i) == Label(l);
    var rest := ReadLabels(d, i + 1 + |l|, fuel - 1);
    if rest.Some? {
      Assoc(acc, [l], rest.value.labels);
    }
  }

  lemma NameComplete(whole: Option<Found>, acc: seq<Text>)
    requires whole.Some? && whole.value.labels == acc + []
    ensures whole.value.labels == acc
  {
  }

  lemma NameTooLong(whole: Option<Found>, acc: seq<Text>, l: Text, limit: nat)
    requires whole.Some? ==> acc + [l] <= whole.value.labels
    requires |Join(acc + [l])| >= limit
    ensures whole.Some? ==> |Join(whole.value.labels)| >= limit
  {
    if whole.Some? {
      var rest := whole.value.labels[|acc| + 1..];
      assert whole.value.labels == acc + ([l] + rest);
      JoinGrows(acc, l, rest);
    }
  }

  /** The dot and the escaped label, after the labels already written. */
  method EscapeNext(l: Text, first: bool, text: Text, left: nat, limit: nat, ghost acc: seq<Text>)
    returns (ok: bool, out: Text, rest: nat)
    requires |l| > 0 && text == Join(acc) && left == limit - |text| && left > 0
    requires first <==> acc == []
    ensures ok ==> out == Join(acc + [l]) && rest == limit - |out| && rest > 0
    ensures !ok ==> |Join(acc + [l])| >= limit
  {
    JoinGrows(acc, l, []);
    out, rest := text, left;
    if |l| + 1 > rest {
      return false, out, rest;
    }
    if !first {
      out, rest := out + [DOT], rest - 1;
    }
    var e;
    ok, e, rest := EscapeLabel(l, rest);
    out := out + e;
  }

  /** The data of a SRV record, told by where its name goes. */
  lemma SrvImage(p: uint16, w: uint16, o: uint16, target: Text, at: nat, mid: nat, table: NameTable)
    requires mid == at + 6
    ensures var x, n := WriteData(SrvData(p, w, o, target), at, table), WriteName(target, mid, table);
            && (x.Some? <==> n.Some?)
            && (x.Some? ==> x.value.bytes == SrvFields(p, w, o) + n.value.bytes && x.value.entries == n.value.entries)
  {
  }

  lemma NothingDone(w: Option<NameBytes>)
    ensures Remains(w, NameBytes([], map[]), w)
  {
    if w.Some? {
      assert [] + w.value.bytes == w.value.bytes;
      assert w.value.entries + map[] == w.value.entries;
    }
  }

  lemma FoundPointer(rest: Text, at: nat, was: NameTable, table: NameTable, made: NameTable)
    requires rest != [] && rest in table && table[rest] < POINTER_LIMIT
    requires table == made + was && forall k :: k in made ==> |k| > |rest|
    ensures Compressible(rest, was) && was[rest] == table[rest]
    ensures var w := WriteName(rest, at, was);
            w.Some? && w.value.bytes == Pointer(table[rest]) && w.value.entries + made == made
  {
    assert rest !in made;
    assert map[] + made == made;
  }

  lemma NoPointer(rest: Text, was: NameTable, table: NameTable, made: NameTable)
    requires !(rest in table && table[rest] < POINTER_LIMIT)
    requires table == made + was
    ensures !Compressible(rest, was)
  {
  }

  /** A record whose name or header does not fit does not fit. */
  lemma RecordTooLong(r: Record, flush: bool, maxTtl: uint32, at: nat, table: NameTable, nameEnd: nat)
    ensures var w, n := WriteRecord(r, flush, maxTtl, at, table), WriteName(r.key.name, at, table);
            && (n.None? ==> w.None?)
            && (w.Some? ==> |w.value.bytes| >= |n.value.bytes| + RECORD_HEADER_SIZE)
  {
  }

  /** A record, told by where its data goes. */
  lemma RecordImage(r: Record, flush: bool, maxTtl: uint32, at: nat, table: NameTable, nameEnd: nat, dataAt: nat)
    requires WriteName(r.key.name, at, table).Some?
    requires nameEnd == at + |WriteName(r.key.name, at, table).value.bytes| && dataAt == nameEnd + RECORD_HEADER_SIZE
    ensures var n, w := WriteName(r.key.name, at, table).value, WriteRecord(r, flush, maxTtl, at, table);
            var x := WriteData(r.data, dataAt, Extended(table, n));
            && (w.Some? <==> x.Some? && |x.value.bytes| < 0x1_0000)
            && (w.Some? ==>
                  && w.value.bytes == n.bytes + (HeaderOf(r, flush, maxTtl, |x.value.bytes|) + x.value.bytes)
                  && w.value.entries == x.value.entries + n.entries)
  {
  }

  lemma BelowBoth(table: NameTable, named: NameTable, start: nat, mid: nat)
    requires start <= mid && Below(table, mid) == named
    ensures Below(table, start) == Below(named, start)
  {
  }

  lemma PatchedRecord(before: Text, name: Text, r: Record, flush: bool, maxTtl: uint32, x: Text)
    requires |x| < 0x1_0000
    ensures var d := before + name + HeaderOf(r, flush, maxTtl, 0) + x;
            WithU16(d, |before| + |name| + 8, |x|) == before + (name + (HeaderOf(r, flush, maxTtl, |x|) + x))
  {
    var f := U16(r.key.rtype) + U16(if flush then HighBitSet(r.key.clazz) else HighBitClear(r.key.clazz)) +
             U32(WireTtl(r.ttl, maxTtl));
    PatchMiddle(before + name, f, U16(0), x, |x|);
    Assoc(before, name, f + U16(|x|) + x);
  }

  lemma PatchMiddle(a: Text, f: Text, z: Text, x: Text, v: uint16)
    requires |z| == 2
    ensures WithU16(a + (f + z) + x, |a| + |f|, v) == a + (f + U16(v) + x)
  {
    var d := a + (f + z) + x;
    assert d[..|a| + |f|] == a + f;
    assert d[|a| + |f| + 2..] == x;
    Assoc(a, f, U16(v));
    Assoc(a, f + U16(v), x);
  }
}
