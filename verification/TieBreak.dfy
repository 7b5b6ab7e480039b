/** The order of records that decides between two hosts probing for the same name. */
module TieBreak {
  import opened Bytes
  import opened Names
  import opened StringLists
  import opened Records

  /** uint16_cmp, and the sign of the difference of two bytes. */
  function CompareInt(a: int, b: int): int {
    if a == b then 0 else if a < b then -1 else 1
  }

  /** Byte strings by their first difference; `prefix` is the sign for a strict prefix. */
  function CompareBytes(a: Text, b: Text, prefix: int): int {
    if a == [] && b == [] then 0
    else if a == [] then prefix
    else if b == [] then -prefix
    else if a[0] != b[0] then CompareInt(a[0], b[0])
    else CompareBytes(a[1..], b[1..], prefix)
  }

  function CompareLabels(a: seq<Text>, b: seq<Text>): int {
    if a == [] && b == [] then 0
    else if a == [] then -1
    else if b == [] then 1
    else
      var c := CompareBytes(a[0], b[0], -1);
      if c != 0 then c else CompareLabels(a[1..], b[1..])
  }

  function CompareNames(a: Text, b: Text): int
    requires ValidName(a) && ValidName(b)
  {
    CompareLabels(Labels(a).value, Labels(b).value)
  }

  function Then(c: int, d: int): int {
    if c != 0 then c else d
  }

  function CompareData(a: Rdata, b: Rdata): int
    requires ValidData(a) && ValidData(b)
  {
    match (a, b)
    case (NameData(x), NameData(y)) => CompareNames(x, y)
    case (SrvData(p, w, o, x), SrvData(p', w', o', y)) =>
      Then(CompareInt(p, p'), Then(CompareInt(w, w'), Then(CompareInt(o, o'), CompareNames(x, y))))
    case (HinfoData(c, o), HinfoData(c', o')) => Then(CompareBytes(c, c', -1), CompareBytes(o, o', -1))
    case (TxtData(s), TxtData(t)) => CompareBytes(Serialized(s), Serialized(t), 1)
    case (AData(x), AData(y)) => CompareBytes(x, y, 1)
    case (AaaaData(x), AaaaData(y)) => CompareBytes(x, y, 1)
    case (GenericData(x), GenericData(y)) => CompareBytes(x, y, 1)
    case _ => 0
  }

  /** avahi_record_lexicographical_compare */
  function Compare(a: Record, b: Record): int
    requires ValidRecord(a) && ValidRecord(b)
  {
    Then(CompareInt(a.key.clazz, b.key.clazz),
         Then(CompareInt(a.key.rtype, b.key.rtype), CompareData(a.data, b.data)))
  }

  // ---------- The loops that compute it ----------

  /** memcmp of the common part, then the lengths: a strict prefix sorts after the longer string. */
  method LexicographicalMemcmp(a: Text, b: Text) returns (r: int)
    ensures r == CompareBytes(a, b, 1)
  {
    var c := if |a| < |b| then |a| else |b|;
    var i := 0;
    assert a[0..] == a && b[0..] == b;
    while i < c
      invariant 0 <= i <= c
      invariant CompareBytes(a, b, 1) == CompareBytes(a[i..], b[i..], 1)
    {
      if a[i] != b[i] {
        return if a[i] < b[i] then -1 else 1;
      }
      assert a[i..][1..] == a[i + 1..] && b[i..][1..] == b[i + 1..];
      i := i + 1;
    }
    if |a| == |b| {
      return 0;
    }
    r := if |a| == c then 1 else -1;
  }

  method Strcmp(a: Text, b: Text) returns (r: int)
    ensures r == CompareBytes(a, b, -1)
  {
    var i := 0;
    assert a[0..] == a && b[0..] == b;
    while i < |a| && i < |b| && a[i] == b[i]
      invariant 0 <= i <= |a| && i <= |b|
      invariant CompareBytes(a, b, -1) == CompareBytes(a[i..], b[i..], -1)
    {
      assert a[i..][1..] == a[i + 1..] && b[i..][1..] == b[i + 1..];
      i := i + 1;
    }
    var x: int, y: int := if i < |a| then a[i] else -1, if i < |b| then b[i] else -1;
    r := CompareInt(x, y);
  }

  /** avahi_binary_domain_cmp; a name that has ended reads as empty labels. */
  method BinaryDomainCmp(a: Text, b: Text) returns (r: int)
    requires ValidName(a) && ValidName(b)
    ensures r == CompareNames(a, b)
  {
    var x, y := a, b;
    while true
      invariant IsCString(x) && IsCString(y) && Labels(x).Some? && Labels(y).Some?
      invariant CompareNames(a, b) == CompareLabels(Labels(x).value, Labels(y).value)
      decreases |x| + |y|
    {
      NameEquality.FirstLabel(x);
      NameEquality.FirstLabel(y);
      ghost var lx, ly := Labels(x).value, Labels(y).value;
      var u := UnescapeLabel(x, LABEL_MAX);
      var v := UnescapeLabel(y, LABEL_MAX);
      r := Strcmp(u.value.content, v.value.content);
      if r != 0 {
        return;
      }
      BytesZero(u.value.content, v.value.content, -1);
      x, y := u.value.rest, v.value.rest;
      if x == [] && y == [] {
        return;
      }
    }
  }

  method RecordCompare(a: Record, b: Record) returns (r: int)
    requires ValidRecord(a) && ValidRecord(b)
    ensures r == Compare(a, b)
  {
    r := CompareInt(a.key.clazz, b.key.clazz);
    if r != 0 {
      return;
    }
    r := CompareInt(a.key.rtype, b.key.rtype);
    if r != 0 {
      return;
    }
    match a.data
    case NameData(target) =>
      r := BinaryDomainCmp(target, b.data.target);
    case SrvData(p, w, o, target) =>
      r := CompareInt(p, b.data.priority);
      if r == 0 {
        r := CompareInt(w, b.data.weight);
        if r == 0 {
          r := CompareInt(o, b.data.port);
          if r == 0 {
            r := BinaryDomainCmp(target, b.data.target);
          }
        }
      }
    case HinfoData(cpu, os) =>
      r := Strcmp(cpu, b.data.cpu);
      if r == 0 {
        r := Strcmp(os, b.data.os);
      }
    case TxtData(strings) =>
      r := LexicographicalMemcmp(Serialized(strings), Serialized(b.data.strings));
    case AData(address) =>
      r := LexicographicalMemcmp(address, b.data.address);
    case AaaaData(address) =>
      r := LexicographicalMemcmp(address, b.data.address);
    case GenericData(data) =>
      r := LexicographicalMemcmp(data, b.data.data);
  }

  // ---------- It is a total order ----------

  lemma {:induction false} BytesZero(a: Text, b: Text, prefix: int)
    requires prefix != 0
    ensures CompareBytes(a, b, prefix) == 0 <==> a == b
  {
    if a != [] && b != [] && a[0] == b[0] {
      BytesZero(a[1..], b[1..], prefix);
      assert a == [a[0]] + a[1..] && b == [b[0]] + b[1..];
    }
  }

  lemma {:induction false} BytesAntisymmetric(a: Text, b: Text, prefix: int)
    ensures CompareBytes(b, a, prefix) == -CompareBytes(a, b, prefix)
  {
    if a != [] && b != [] && a[0] == b[0] {
      BytesAntisymmetric(a[1..], b[1..], prefix);
    }
  }

  lemma {:induction false} BytesTransitive(a: Text, b: Text, c: Text, prefix: int)
    requires prefix == 1 || prefix == -1
    requires CompareBytes(a, b, prefix) < 0 && CompareBytes(b, c, prefix) < 0
    ensures CompareBytes(a, c, prefix) < 0
  {
    if a != [] && b != [] && c != [] && a[0] == b[0] == c[0] {
      BytesTransitive(a[1..], b[1..], c[1..], prefix);
    }
  }

  lemma {:induction false} LabelsOrder(a: seq<Text>, b: seq<Text>)
    ensures CompareLabels(a, b) == 0 <==> a == b
    ensures CompareLabels(b, a) == -CompareLabels(a, b)
  {
    if a != [] && b != [] {
      BytesZero(a[0], b[0], -1);
      BytesAntisymmetric(a[0], b[0], -1);
      LabelsOrder(a[1..], b[1..]);
      assert a == [a[0]] + a[1..] && b == [b[0]] + b[1..];
    }
  }

  lemma {:induction false} LabelsTransitive(a: seq<Text>, b: seq<Text>, c: seq<Text>)
    requires CompareLabels(a, b) < 0 && CompareLabels(b, c) < 0
    ensures CompareLabels(a, c) < 0
  {
    if a != [] && b != [] && c != [] {
      BytesZero(a[0], b[0], -1);
      BytesZero(b[0], c[0], -1);
      if a[0] == b[0] == c[0] {
        LabelsTransitive(a[1..], b[1..], c[1..]);
      } else if a[0] != b[0] && b[0] != c[0] {
        BytesTransitive(a[0], b[0], c[0], -1);
      }
    }
  }

  lemma DataAntisymmetric(a: Rdata, b: Rdata)
    requires ValidData(a) && ValidData(b)
    ensures CompareData(b, a) == -CompareData(a, b)
  {
    match (a, b)
    case (NameData(x), NameData(y)) => LabelsOrder(Labels(x).value, Labels(y).value);
    case (SrvData(_, _, _, x), SrvData(_, _, _, y)) => LabelsOrder(Labels(x).value, Labels(y).value);
    case (HinfoData(c, o), HinfoData(c', o')) =>
      BytesAntisymmetric(c, c', -1);
      BytesAntisymmetric(o, o', -1);
    case (TxtData(s), TxtData(t)) => BytesAntisymmetric(Serialized(s), Serialized(t), 1);
    case (AData(x), AData(y)) => BytesAntisymmetric(x, y, 1);
    case (AaaaData(x), AaaaData(y)) => BytesAntisymmetric(x, y, 1);
    case (GenericData(x), GenericData(y)) => BytesAntisymmetric(x, y, 1);
    case _ =>
  }

  lemma Antisymmetric(a: Record, b: Record)
    requires ValidRecord(a) && ValidRecord(b)
    ensures Compare(b, a) == -Compare(a, b)
  {
    DataAntisymmetric(a.data, b.data);
  }

  /** Two records tie exactly when class, type and data agree, names label by label and with their case. */
  predicate SameData(a: Rdata, b: Rdata)
    requires ValidData(a) && ValidData(b)
  {
    match (a, b)
    case (NameData(x), NameData(y)) => Labels(x) == Labels(y)
    case (SrvData(p, w, o, x), SrvData(p', w', o', y)) => p == p' && w == w' && o == o' && Labels(x) == Labels(y)
    case _ => a == b
  }

  lemma Ties(a: Record, b: Record)
    requires ValidRecord(a) && ValidRecord(b)
    ensures Compare(a, b) == 0 <==>
            a.key.clazz == b.key.clazz && a.key.rtype == b.key.rtype && SameData(a.data, b.data)
  {
    match (a.data, b.data)
    case (NameData(x), NameData(y)) => LabelsOrder(Labels(x).value, Labels(y).value);
    case (SrvData(_, _, _, x), SrvData(_, _, _, y)) => LabelsOrder(Labels(x).value, Labels(y).value);
    case (HinfoData(c, o), HinfoData(c', o')) =>
      BytesZero(c, c', -1);
      BytesZero(o, o', -1);
    case (TxtData(s), TxtData(t)) =>
      BytesZero(Serialized(s), Serialized(t), 1);
      if Serialized(s) == Serialized(t) {
        ParseSerialized(s);
        ParseSerialized(t);
        ValidStringsAreKept(s);
        ValidStringsAreKept(t);
      }
    case (AData(x), AData(y)) => BytesZero(x, y, 1);
    case (AaaaData(x), AaaaData(y)) => BytesZero(x, y, 1);
    case (GenericData(x), GenericData(y)) => BytesZero(x, y, 1);
    case _ =>
  }

  lemma NamesTransitive(x: Text, y: Text, z: Text)
    requires ValidName(x) && ValidName(y) && ValidName(z)
    ensures CompareNames(x, y) < 0 && CompareNames(y, z) < 0 ==> CompareNames(x, z) < 0
  {
    if CompareNames(x, y) < 0 && CompareNames(y, z) < 0 {
      LabelsTransitive(Labels(x).value, Labels(y).value, Labels(z).value);
    }
  }

  lemma HinfoTransitive(c: Text, o: Text, c': Text, o': Text, c'': Text, o'': Text)
    requires Then(CompareBytes(c, c', -1), CompareBytes(o, o', -1)) < 0
    requires Then(CompareBytes(c', c'', -1), CompareBytes(o', o'', -1)) < 0
    ensures Then(CompareBytes(c, c'', -1), CompareBytes(o, o'', -1)) < 0
  {
    BytesZero(c, c', -1);
    BytesZero(c', c'', -1);
    if c == c' == c'' {
      BytesTransitive(o, o', o'', -1);
    } else if c != c' && c' != c'' {
      BytesTransitive(c, c', c'', -1);
    }
  }

  lemma Transitive(a: Record, b: Record, c: Record)
    requires ValidRecord(a) && ValidRecord(b) && ValidRecord(c)
    requires Compare(a, b) < 0 && Compare(b, c) < 0
    ensures Compare(a, c) < 0
  {
    if a.key.clazz == b.key.clazz == c.key.clazz && a.key.rtype == b.key.rtype == c.key.rtype {
      match (a.data, b.data, c.data)
      case (NameData(x), NameData(y), NameData(z)) => NamesTransitive(x, y, z);
      case (SrvData(_, _, _, x), SrvData(_, _, _, y), SrvData(_, _, _, z)) => NamesTransitive(x, y, z);
      case (HinfoData(u, v), HinfoData(u', v'), HinfoData(u'', v'')) => HinfoTransitive(u, v, u', v', u'', v'');
      case (TxtData(x), TxtData(y), TxtData(z)) =>
        BytesTransitive(Serialized(x), Serialized(y), Serialized(z), 1);
      case (AData(x), AData(y), AData(z)) => BytesTransitive(x, y, z, 1);
      case (AaaaData(x), AaaaData(y), AaaaData(z)) => BytesTransitive(x, y, z, 1);
      case (GenericData(x), GenericData(y), GenericData(z)) => BytesTransitive(x, y, z, 1);
      case _ =>
    }
  }

  /** A strict prefix sorts after the longer string, the opposite of section 8.2 of RFC 6762. */
  lemma PrefixSortsAfter(a: Text, b: Text)
    requires b != []
    ensures CompareBytes(a, a + b, 1) == 1
  {
    if a != [] {
      assert (a + b)[1..] == a[1..] + b;
      PrefixSortsAfter(a[1..], b);
    }
  }

  // ---------- Simultaneous probes ----------

  datatype Entry = Entry(record: Record, dead: bool, probing: bool)

  predicate ValidEntries(entries: seq<Entry>) {
    forall e :: e in entries ==> ValidRecord(e.record)
  }

  predicate Live(e: Entry) {
    !e.dead
  }

  /** One of our live records is the same as the received one. */
  predicate Ours(entries: seq<Entry>, record: Record)
    requires ValidEntries(entries) && ValidRecord(record)
  {
    exists e :: e in entries && Live(e) && Compare(e.record, record) == 0
  }

  predicate Beaten(entries: seq<Entry>, record: Record)
    requires ValidEntries(entries) && ValidRecord(record)
  {
    exists e :: e in entries && Live(e) && e.probing && Compare(e.record, record) < 0
  }

  predicate Beats(entries: seq<Entry>, record: Record)
    requires ValidEntries(entries) && ValidRecord(record)
  {
    exists e :: e in entries && Live(e) && e.probing && Compare(e.record, record) > 0
  }

  predicate Withdraws(entries: seq<Entry>, record: Record)
    requires ValidEntries(entries) && ValidRecord(record)
  {
    !Ours(entries, record) && !Beats(entries, record) && Beaten(entries, record)
  }

  /** How one more entry changes the three verdicts. */
  lemma OneMoreEntry(entries: seq<Entry>, e: Entry, record: Record)
    requires ValidEntries(entries + [e]) && ValidRecord(record)
    ensures ValidEntries(entries)
    ensures var c := if e.dead then 0 else Compare(e.record, record);
            && (Ours(entries + [e], record) <==> Ours(entries, record) || (!e.dead && c == 0))
            && (Beats(entries + [e], record) <==> Beats(entries, record) || (e.probing && c > 0))
            && (Beaten(entries + [e], record) <==> Beaten(entries, record) || (e.probing && c < 0))
  {
    assert forall x :: x in entries + [e] <==> x in entries || x == e;
  }

  lemma OursIsFound(entries: seq<Entry>, i: nat, record: Record)
    requires ValidEntries(entries) && ValidRecord(record) && i < |entries|
    requires Live(entries[i]) && Compare(entries[i].record, record) == 0
    ensures Ours(entries, record)
  {
    assert entries[i] in entries;
  }

  /**
   incoming_probe over the entries with the probe's key: the record set is withdrawn exactly
   when the probe is not one of ours, beats one of our probing records and loses to none.
   */
  method IncomingProbe(entries: seq<Entry>, record: Record) returns (withdraw: bool)
    requires ValidEntries(entries) && ValidRecord(record)
    ensures withdraw <==> Withdraws(entries, record)
  {
    var won, lost := false, false;
    var i := 0;
    while i < |entries|
      invariant 0 <= i <= |entries| && ValidEntries(entries[..i])
      invariant !Ours(entries[..i], record)
      invariant won <==> Beats(entries[..i], record)
      invariant lost <==> Beaten(entries[..i], record)
    {
      var e := entries[i];
      assert entries[..i + 1] == entries[..i] + [e];
      OneMoreEntry(entries[..i], e, record);
      if !e.dead {
        var cmp := RecordCompare(e.record, record);
        if cmp == 0 {
          OursIsFound(entries, i, record);
          return false;
        }
        if e.probing {
          if cmp > 0 {
            won := true;
          } else {
            lost := true;
          }
        }
      }
      i := i + 1;
    }
    assert entries[..i] == entries;
    withdraw := !won && lost;
  }

  /** A host whose own probes are exactly `rs`. */
  function Probing(rs: seq<Record>): seq<Entry> {
    seq(|rs|, i requires 0 <= i < |rs| => Entry(rs[i], false, true))
  }

  predicate ValidRecords(rs: seq<Record>) {
    forall r :: r in rs ==> ValidRecord(r)
  }

  /** Two hosts that probe for the same name never both withdraw. */
  lemma NeverBothWithdraw(mine: seq<Record>, theirs: seq<Record>, r: Record, s: Record)
    requires ValidRecords(mine) && ValidRecords(theirs)
    requires r in theirs && s in mine
    requires Withdraws(Probing(mine), r)
    ensures !Withdraws(Probing(theirs), s)
  {
    var i :| 0 <= i < |mine| && mine[i] == s;
    assert Probing(mine)[i] in Probing(mine);
    assert Compare(s, r) < 0;
    Antisymmetric(s, r);
    var j :| 0 <= j < |theirs| && theirs[j] == r;
    assert Probing(theirs)[j] in Probing(theirs);
    assert Beats(Probing(theirs), s);
  }

  /** The greatest of a host's records. */
  lemma Greatest(rs: seq<Record>) returns (m: Record)
    requires ValidRecords(rs) && rs != []
    ensures m in rs && forall r :: r in rs ==> Compare(r, m) <= 0
  {
    m := rs[0];
    Ties(m, m);
    var i := 1;
    while i < |rs|
      invariant 1 <= i <= |rs| && m in rs
      invariant forall k :: 0 <= k < i ==> Compare(rs[k], m) <= 0
    {
      var n := rs[i];
      assert n in rs;
      Ties(n, n);
      Antisymmetric(n, m);
      if Compare(n, m) > 0 {
        forall k | 0 <= k < i
          ensures Compare(rs[k], n) <= 0
        {
          BelowGreater(rs[k], m, n);
        }
        m := n;
      }
      i := i + 1;
    }
  }

  lemma BelowGreater(a: Record, b: Record, c: Record)
    requires ValidRecord(a) && ValidRecord(b) && ValidRecord(c)
    requires Compare(a, b) <= 0 && Compare(b, c) < 0
    ensures Compare(a, c) < 0
  {
    if Compare(a, b) < 0 {
      Transitive(a, b, c);
    } else {
      Antisymmetric(a, c);
      Antisymmetric(b, c);
      Ties(a, b);
      TieComparesAlike(a, b, c);
    }
  }

  lemma TieComparesAlike(a: Record, b: Record, c: Record)
    requires ValidRecord(a) && ValidRecord(b) && ValidRecord(c)
    requires Compare(a, b) == 0
    ensures Compare(a, c) == Compare(b, c)
  {
    Ties(a, b);
  }

  /**
   When no record of one host ties with one of the other, some probe makes one host withdraw,
   so the two never both win either.
   */
  lemma OneWithdraws(mine: seq<Record>, theirs: seq<Record>)
    requires ValidRecords(mine) && ValidRecords(theirs) && mine != [] && theirs != []
    requires forall a, b :: a in mine && b in theirs ==> Compare(a, b) != 0
    ensures (exists r :: r in theirs && Withdraws(Probing(mine), r)) ||
            (exists s :: s in mine && Withdraws(Probing(theirs), s))
  {
    var m := Greatest(mine);
    var t := Greatest(theirs);
    if Compare(m, t) < 0 {
      AllBelowWithdraws(mine, m, t);
    } else {
      Antisymmetric(m, t);
      forall a, b | a in theirs && b in mine
        ensures Compare(a, b) != 0
      {
        Antisymmetric(a, b);
      }
      AllBelowWithdraws(theirs, t, m);
    }
  }

  lemma AllBelowWithdraws(rs: seq<Record>, m: Record, r: Record)
    requires ValidRecords(rs) && m in rs && ValidRecord(r)
    requires forall a :: a in rs ==> Compare(a, m) <= 0
    requires Compare(m, r) < 0
    ensures Withdraws(Probing(rs), r)
  {
    forall e | e in Probing(rs)
      ensures Compare(e.record, r) < 0
    {
      BelowGreater(e.record, m, r);
    }
    var i :| 0 <= i < |rs| && rs[i] == m;
    assert Probing(rs)[i] in Probing(rs);
  }
}
