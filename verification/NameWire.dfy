/**
 Names on the wire: writing with suffix compression (section 4.1.4 of RFC 1035) and reading back.
 A name table maps the text of a suffix to the offset of its first label.
 */
module NameWire {
  import opened Bytes
  import opened Names

  const HEADER_SIZE := 12
  const LABELS_MAX := 127
  const POINTER_LIMIT := 0x4000

  type NameTable = map<Text, nat>

  /** The bytes of one name and the table entries its labels add. */
  datatype NameBytes = NameBytes(bytes: Text, entries: NameTable)

  function Pointer(offset: nat): (r: Text)
    requires offset < POINTER_LIMIT
    ensures |r| == 2
  {
    [192 + offset / 256, offset % 256]
  }

  predicate Compressible(name: Text, table: NameTable) {
    name in table && table[name] < POINTER_LIMIT
  }

  function WithLabel(name: Text, l: Text, at: nat, w: NameBytes): NameBytes
    requires |l| < LABEL_MAX
  {
    NameBytes([|l|] + l + w.bytes, w.entries[name := at])
  }

  /** What avahi_dns_packet_append_name writes at offset `at`, if nothing runs out of space. */
  function WriteName(name: Text, at: nat, table: NameTable): (r: Option<NameBytes>)
    ensures r.Some? ==> |r.value.bytes| > 0
    decreases |name|
  {
    if name == [] then Some(NameBytes([0], map[]))
    else if Compressible(name, table) then Some(NameBytes(Pointer(table[name]), map[]))
    else
      match Unescape(name, LABEL_MAX)
      case None => None
      case Some(x) =>
        match WriteName(x.rest, at + 1 + |x.content|, table)
        case None => None
        case Some(w) => Some(WithLabel(name, x.content, at, w))
  }

  /** The table after a name: an entry that was there already is never overwritten. */
  function Extended(table: NameTable, w: NameBytes): NameTable {
    w.entries + table
  }

  /** What stands on the wire: a zero byte, a pointer, or a length and a label in front of the rest of the name. */
  lemma NameLayout(name: Text, at: nat, table: NameTable)
    requires WriteName(name, at, table).Some?
    ensures var b := WriteName(name, at, table).value.bytes;
            if name == [] then b == [0]
            else if name in table && table[name] < 0x4000 then
              |b| == 2 && FieldAt(b, 0, 0xC000 + table[name])
            else
              var u := Unescape(name, LABEL_MAX);
              && u.Some? && b[0] == |u.value.content| < 64 && |b| >= 1 + b[0]
              && b[1..1 + b[0]] == u.value.content
              && WriteName(u.value.rest, at + 1 + b[0], table).Some?
              && b[1 + b[0]..] == WriteName(u.value.rest, at + 1 + b[0], table).value.bytes
  {
  }

  // ---------- Reading ----------

  /** The labels at an offset, the bytes they take up there, and the loop passes they cost. */
  datatype Found = Found(labels: seq<Text>, used: nat, steps: nat)

  function PointerAt(d: Text, i: nat): (r: nat)
    requires i + 2 <= |d| && d[i] >= 192
  {
    var high: int := d[i] - 192;
    high * 256 + d[i + 1]
  }

  /** What one pass of the reading loop meets at offset `i`. */
  datatype Step = End | Label(content: Text) | Jump(target: nat) | Malformed

  function StepAt(d: Text, i: nat): (r: Step)
    ensures !r.Malformed? ==> i < |d|
    ensures r.Label? ==> 0 < |r.content| <= 63 && i + 1 + |r.content| <= |d|
    ensures r.Jump? ==> HEADER_SIZE <= r.target < i && i + 2 <= |d|
  {
    if i >= |d| then Malformed
    else if d[i] == 0 then End
    else if d[i] <= 63 then
      if i + 1 + d[i] > |d| then Malformed else Label(d[i + 1..i + 1 + d[i]])
    else if d[i] >= 192 then
      if i + 2 > |d| || !(HEADER_SIZE <= PointerAt(d, i) < i) then Malformed else Jump(PointerAt(d, i))
    else Malformed
  }

  function AfterLabel(l: Text, r: Option<Found>): Option<Found> {
    match r
    case None => None
    case Some(x) => Some(Found([l] + x.labels, 1 + |l| + x.used, x.steps + 1))
  }

  function AfterJump(r: Option<Found>): Option<Found> {
    match r
    case None => None
    case Some(x) => Some(Found(x.labels, 2, x.steps + 1))
  }

  /** consume_labels with `fuel` loop passes left, for a buffer that never overflows. */
  function ReadLabels(d: Text, i: nat, fuel: nat): (r: Option<Found>)
    ensures r.Some? ==> 0 < r.value.steps <= fuel && 0 < r.value.used && i + r.value.used <= |d|
    decreases fuel, |d|, i
  {
    if fuel == 0 then None
    else
      match StepAt(d, i)
      case End => Some(Found([], 1, 1))
      case Label(l) => AfterLabel(l, ReadLabels(d, i + 1 + |l|, fuel - 1))
      case Jump(p) => AfterJump(ReadLabels(d, p, fuel - 1))
      case Malformed => None
  }

  /** avahi_dns_packet_consume_name into a buffer of `size` bytes: the text and the bytes used. */
  function ReadName(d: Text, i: nat, size: nat): (r: Option<(Text, nat)>)
    ensures r.Some? ==> 0 < r.value.1 && i + r.value.1 <= |d| && |r.value.0| < size
  {
    match ReadLabels(d, i, LABELS_MAX)
    case None => None
    case Some(x) => if |Join(x.labels)| < size then Some((Join(x.labels), x.used)) else None
  }

  /** More passes change nothing, and fewer than a name needs never suffice. */
  lemma {:induction false} ReadWithFuel(d: Text, i: nat, f: nat, g: nat)
    requires ReadLabels(d, i, f).Some?
    ensures ReadLabels(d, i, g) ==
            if ReadLabels(d, i, f).value.steps <= g then ReadLabels(d, i, f) else None
    decreases f
  {
    if g > 0 {
      match StepAt(d, i)
      case Label(l) => ReadWithFuel(d, i + 1 + |l|, f - 1, g - 1);
      case Jump(p) => ReadWithFuel(d, p, f - 1, g - 1);
      case _ =>
    }
  }

  /** What was read before does not depend on bytes appended later, nor on the packet header. */
  predicate SameBody(d: Text, e: Text) {
    HEADER_SIZE <= |d| <= |e| && d[HEADER_SIZE..] == e[HEADER_SIZE..|d|]
  }

  lemma SameBodyAt(d: Text, e: Text, i: nat, j: nat)
    requires SameBody(d, e) && HEADER_SIZE <= i <= j <= |d|
    ensures d[i..j] == e[i..j]
    ensures i < j ==> d[i] == e[i]
  {
    forall k | i <= k < j
      ensures d[k] == e[k]
    {
      assert d[k] == d[HEADER_SIZE..][k - HEADER_SIZE];
      assert e[k] == e[HEADER_SIZE..|d|][k - HEADER_SIZE];
    }
    assert d[i..j] == e[i..j];
  }

  lemma StepStable(d: Text, e: Text, i: nat)
    requires SameBody(d, e) && i >= HEADER_SIZE && !StepAt(d, i).Malformed?
    ensures StepAt(e, i) == StepAt(d, i)
  {
    SameBodyAt(d, e, i, i + 1);
    if 0 < d[i] <= 63 {
      SameBodyAt(d, e, i + 1, i + 1 + d[i]);
    } else if d[i] >= 192 {
      SameBodyAt(d, e, i + 1, i + 2);
    }
  }

  lemma {:induction false} ReadStable(d: Text, e: Text, i: nat, fuel: nat)
    requires SameBody(d, e) && i >= HEADER_SIZE
    requires ReadLabels(d, i, fuel).Some?
    ensures ReadLabels(e, i, fuel) == ReadLabels(d, i, fuel)
    decreases fuel
  {
    StepStable(d, e, i);
    match StepAt(d, i)
    case Label(l) => ReadStable(d, e, i + 1 + |l|, fuel - 1);
    case Jump(p) => ReadStable(d, e, p, fuel - 1);
    case _ =>
  }

  // ---------- The table invariant ----------

  /** Within `bound` passes the reader finds exactly `ls` at offset `i`, taking `used` bytes there. */
  predicate ReadsTo(d: Text, i: nat, ls: seq<Text>, used: nat, bound: nat) {
    var r := ReadLabels(d, i, bound);
    r.Some? && r.value.labels == ls && r.value.used == used
  }

  /** At offset `i` stands a label, and the labels found there are `ls`. */
  predicate SuffixAt(d: Text, i: nat, ls: seq<Text>) {
    && HEADER_SIZE <= i < |d|
    && ReadLabels(d, i, 2 * |ls|).Some?
    && ReadLabels(d, i, 2 * |ls|).value.labels == ls
  }

  /** Entry `k` names an offset after the header where exactly the text `k` can be read. */
  predicate EntryOk(d: Text, k: Text, offset: nat) {
    Normal(k) && k != [] && SuffixAt(d, offset, Split(k).value)
  }

  predicate TableOk(d: Text, table: NameTable) {
    forall k {:trigger EntryOk(d, k, table[k])} :: k in table ==> EntryOk(d, k, table[k])
  }

  lemma TableStable(d: Text, e: Text, table: NameTable)
    requires TableOk(d, table) && SameBody(d, e)
    ensures TableOk(e, table)
  {
    forall k | k in table
      ensures EntryOk(e, k, table[k])
    {
      assert EntryOk(d, k, table[k]);
      ReadStable(d, e, table[k], 2 * |Split(k).value|);
    }
  }

  lemma AppendKeepsBody(d: Text, b: Text)
    requires |d| >= HEADER_SIZE
    ensures SameBody(d, d + b)
  {
    assert (d + b)[HEADER_SIZE..|d|] == d[HEADER_SIZE..];
  }

  lemma LabelAt(d: Text, l: Text, tail: Text)
    requires 0 < |l| < LABEL_MAX
    ensures StepAt(d + ([|l|] + l + tail), |d|) == Label(l)
  {
    var e := d + ([|l|] + l + tail);
    assert e[|d|] == |l|;
    assert e[|d| + 1..|d| + 1 + |l|] == l;
  }

  /** A label in front of labels that can be read. */
  lemma LabelReads(d: Text, l: Text, tail: Text, rest: seq<Text>)
    requires 0 < |l| < LABEL_MAX
    requires ReadsTo(d + ([|l|] + l) + tail, |d| + 1 + |l|, rest, |tail|, 2 * |rest| + 1)
    ensures d + ([|l|] + l) + tail == d + ([|l|] + l + tail)
    ensures ReadsTo(d + ([|l|] + l + tail), |d|, [l] + rest, 1 + |l| + |tail|, 2 * |rest| + 2)
  {
    Assoc(d, [|l|] + l, tail);
    LabelAt(d, l, tail);
  }

  lemma JumpAt(d: Text, p: nat)
    requires HEADER_SIZE <= p < |d| && p < POINTER_LIMIT
    ensures StepAt(d + Pointer(p), |d|) == Jump(p)
  {
    var e := d + Pointer(p);
    assert e[|d|] == 192 + p / 256 && e[|d| + 1] == p % 256;
  }

  lemma JumpReads(d: Text, p: nat, ls: seq<Text>)
    requires |d| >= HEADER_SIZE && SuffixAt(d, p, ls) && p < POINTER_LIMIT
    ensures ReadsTo(d + Pointer(p), |d|, ls, 2, 2 * |ls| + 1)
  {
    AppendKeepsBody(d, Pointer(p));
    ReadStable(d, d + Pointer(p), p, 2 * |ls|);
    JumpAt(d, p);
  }

  lemma MakeEntry(d: Text, offset: nat, ls: seq<Text>)
    requires ValidLabels(ls) && ls != [] && SuffixAt(d, offset, ls)
    ensures EntryOk(d, Join(ls), offset)
  {
    SplitJoin(ls);
    ScanJoin(ls);
  }

  lemma UseEntry(d: Text, table: NameTable, ls: seq<Text>)
    requires TableOk(d, table) && ValidLabels(ls) && Join(ls) in table
    ensures SuffixAt(d, table[Join(ls)], ls)
  {
    SplitJoin(ls);
    assert EntryOk(d, Join(ls), table[Join(ls)]);
  }

  /** What a reader finds where the labels `ls` were written as `w`, and what the table gained. */
  predicate NameWritten(d: Text, ls: seq<Text>, w: NameBytes) {
    && ReadsTo(d + w.bytes, |d|, ls, |w.bytes|, 2 * |ls| + 1)
    && TableOk(d + w.bytes, w.entries)
  }

  /** WriteName, told by the labels of a normal name. */
  function WriteLabels(ls: seq<Text>, at: nat, table: NameTable): NameBytes
    requires ValidLabels(ls)
  {
    if ls == [] then NameBytes([0], map[])
    else if Compressible(Join(ls), table) then NameBytes(Pointer(table[Join(ls)]), map[])
    else
      assert ValidLabel(ls[0]);
      WithLabel(Join(ls), ls[0], at, WriteLabels(ls[1..], at + 1 + |ls[0]|, table))
  }

  lemma {:induction false} WriteNameByLabels(ls: seq<Text>, at: nat, table: NameTable)
    requires ValidLabels(ls)
    ensures WriteName(Join(ls), at, table) == Some(WriteLabels(ls, at, table))
  {
    hide Unescape, ValidLabel, WithLabel;
    if ls != [] {
      ScanJoin(ls);
      if !Compressible(Join(ls), table) {
        WriteNameByLabels(ls[1..], at + 1 + |ls[0]|, table);
        WriteNameStep(Join(ls), ls[0], Join(ls[1..]), at, table);
      }
    }
  }

  lemma WriteNameStep(name: Text, l: Text, rest: Text, at: nat, table: NameTable)
    requires name != [] && !Compressible(name, table)
    requires Unescape(name, LABEL_MAX) == Some(Scanned(l, rest))
    requires WriteName(rest, at + 1 + |l|, table).Some?
    ensures WriteName(name, at, table) == Some(WithLabel(name, l, at, WriteName(rest, at + 1 + |l|, table).value))
  {
  }

  lemma AddEntry(d: Text, entries: NameTable, k: Text, offset: nat)
    requires TableOk(d, entries) && EntryOk(d, k, offset)
    ensures TableOk(d, entries[k := offset])
  {
    var after := entries[k := offset];
    forall x | x in after
      ensures EntryOk(d, x, after[x])
    {
      if x != k {
        assert EntryOk(d, x, entries[x]);
      }
    }
  }

  lemma LabelIsSuffix(d: Text, i: nat, ls: seq<Text>, used: nat)
    requires HEADER_SIZE <= i < |d| && ls != []
    requires ReadsTo(d, i, [ls[0]] + ls[1..], used, 2 * |ls|)
    ensures SuffixAt(d, i, ls) && ReadsTo(d, i, ls, used, 2 * |ls| + 1)
  {
    assert [ls[0]] + ls[1..] == ls;
    ReadWithFuel(d, i, 2 * |ls|, 2 * |ls| + 1);
  }

  lemma RootReads(d: Text)
    ensures ReadsTo(d + [0], |d|, [], 1, 1)
  {
    assert (d + [0])[|d|] == 0;
  }

  /** Where a label and what follows it were written, the whole suffix can be read. */
  lemma LabelWritten(d: Text, ls: seq<Text>, tail: Text)
    requires |d| >= HEADER_SIZE && ls != [] && 0 < |ls[0]| < LABEL_MAX
    requires var e := d + ([|ls[0]|] + ls[0]); ReadsTo(e + tail, |e|, ls[1..], |tail|, 2 * |ls| - 1)
    ensures var b := [|ls[0]|] + ls[0] + tail;
            && d + ([|ls[0]|] + ls[0]) + tail == d + b
            && SuffixAt(d + b, |d|, ls)
            && ReadsTo(d + b, |d|, ls, |b|, 2 * |ls| + 1)
  {
    LabelReads(d, ls[0], tail, ls[1..]);
    LabelIsSuffix(d + ([|ls[0]|] + ls[0] + tail), |d|, ls, 1 + |ls[0]| + |tail|);
  }

  lemma WriteLabel(d: Text, ls: seq<Text>, w: NameBytes)
    requires |d| >= HEADER_SIZE && ValidLabels(ls) && ls != [] && 0 < |ls[0]| < LABEL_MAX
    requires NameWritten(d + ([|ls[0]|] + ls[0]), ls[1..], w)
    ensures NameWritten(d, ls, WithLabel(Join(ls), ls[0], |d|, w))
  {
    LabelWritten(d, ls, w.bytes);
    var e := d + ([|ls[0]|] + ls[0] + w.bytes);
    MakeEntry(e, |d|, ls);
    AddEntry(e, w.entries, Join(ls), |d|);
  }

  /**
   A normal name reads back wherever it is written and whatever suffix was compressed, within
   twice its labels plus one passes, and every entry it adds to the table is right.
   */
  lemma NoEntries(d: Text)
    ensures TableOk(d, map[])
  {
  }

  lemma {:induction false} WriteLabelsReads(d: Text, ls: seq<Text>, table: NameTable)
    requires |d| >= HEADER_SIZE && TableOk(d, table) && ValidLabels(ls)
    ensures NameWritten(d, ls, WriteLabels(ls, |d|, table))
    decreases |ls|
  {
    hide TableOk;
    if ls == [] {
      RootReads(d);
      NoEntries(d + [0]);
    } else if Compressible(Join(ls), table) {
      UseEntry(d, table, ls);
      JumpReads(d, table[Join(ls)], ls);
      NoEntries(d + Pointer(table[Join(ls)]));
    } else {
      assert ValidLabel(ls[0]);
      var chunk := [|ls[0]|] + ls[0];
      AppendKeepsBody(d, chunk);
      TableStable(d, d + chunk, table);
      WriteLabelsReads(d + chunk, ls[1..], table);
      WriteLabel(d, ls, WriteLabels(ls[1..], |d + chunk|, table));
    }
  }

  lemma WriteNameReads(d: Text, name: Text, table: NameTable)
    requires |d| >= HEADER_SIZE && TableOk(d, table) && Normal(name)
    ensures WriteName(name, |d|, table).Some?
    ensures NameWritten(d, Split(name).value, WriteName(name, |d|, table).value)
  {
    var ls := Split(name).value;
    NormalIsJoin(name);
    WriteNameByLabels(ls, |d|, table);
    WriteLabelsReads(d, ls, table);
  }

  /** Writing a normal name keeps the table right, old entries and new. */
  lemma WriteNameKeepsTable(d: Text, name: Text, table: NameTable)
    requires |d| >= HEADER_SIZE && TableOk(d, table) && Normal(name)
    ensures WriteName(name, |d|, table).Some?
    ensures var w := WriteName(name, |d|, table).value; TableOk(d + w.bytes, Extended(table, w))
  {
    WriteNameReads(d, name, table);
    var w := WriteName(name, |d|, table).value;
    AppendKeepsBody(d, w.bytes);
    TableStable(d, d + w.bytes, table);
    MergeTables(d + w.bytes, w.entries, table);
  }

  lemma MergeTables(d: Text, added: NameTable, older: NameTable)
    requires TableOk(d, added) && TableOk(d, older)
    ensures TableOk(d, added + older)
  {
    var both := added + older;
    forall k | k in both
      ensures EntryOk(d, k, both[k])
    {
      if k in older {
        assert EntryOk(d, k, older[k]);
      } else {
        assert EntryOk(d, k, added[k]);
      }
    }
  }

  /** The passes a written name costs the reader. */
  function Passes(d: Text, i: nat, ls: seq<Text>): nat {
    match ReadLabels(d, i, 2 * |ls| + 1)
    case None => 0
    case Some(x) => x.steps
  }

  /** The reader can take a name written at offset `i` into a buffer of `size` bytes. */
  predicate Readable(d: Text, i: nat, name: Text, size: nat)
    requires Normal(name)
  {
    Passes(d, i, Split(name).value) <= LABELS_MAX && |name| < size
  }

  lemma ReadNameFrom(d: Text, e: Text, i: nat, ls: seq<Text>, used: nat, size: nat)
    requires i >= HEADER_SIZE && SameBody(d, e) && ReadsTo(d, i, ls, used, 2 * |ls| + 1)
    ensures Passes(e, i, ls) == Passes(d, i, ls)
    ensures |ls| <= 63 ==> Passes(d, i, ls) <= LABELS_MAX
    ensures ReadName(e, i, size) ==
            if Passes(d, i, ls) <= LABELS_MAX && |Join(ls)| < size then Some((Join(ls), used)) else None
  {
    ReadStable(d, e, i, 2 * |ls| + 1);
    ReadWithFuel(e, i, 2 * |ls| + 1, LABELS_MAX);
  }

  /**
   consume_name gives back a written normal name exactly when the passes it needs fit the cap
   of 127 and its text fits the buffer; at most 63 labels always fit the cap.
   */
  lemma NameRoundTrip(d: Text, name: Text, table: NameTable, e: Text, size: nat)
    requires |d| >= HEADER_SIZE && TableOk(d, table) && Normal(name)
    requires var w := WriteName(name, |d|, table); w.Some? && SameBody(d + w.value.bytes, e)
    ensures |Split(name).value| <= 63 && |name| < size ==> Readable(e, |d|, name, size)
    ensures ReadName(e, |d|, size).Some? <==> Readable(e, |d|, name, size)
    ensures ReadName(e, |d|, size).Some? ==>
              ReadName(e, |d|, size).value == (name, |WriteName(name, |d|, table).value.bytes|)
  {
    var ls := Split(name).value;
    var w := WriteName(name, |d|, table).value;
    WriteNameReads(d, name, table);
    ReadNameFrom(d + w.bytes, e, |d|, ls, |w.bytes|, size);
  }
}
