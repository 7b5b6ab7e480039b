/** The order of section 8.2 of RFC 6762, and exactly where the order that decides between hosts agrees with it. */
module RfcOrder {
  import opened Bytes
  import opened Names
  import opened StringLists
  import opened Records
  import opened NameWire
  import opened RecordWire
  import opened Estimates
  import opened TieBreak

  /** Record data as it goes over the wire, with no name compressed. */
  function RawData(data: Rdata): Text
    requires ValidData(data)
  {
    match data
    case NameData(target) => RawName(target, 0)
    case SrvData(p, w, o, target) => SrvFields(p, w, o) + RawName(target, 6)
    case _ => WriteData(data, 0, map[]).value.bytes
  }

  function RawName(name: Text, at: nat): Text
    requires ValidName(name)
  {
    ValidIsWritten(name, at, map[]);
    WriteName(name, at, map[]).value.bytes
  }

  lemma RawIsWritten(data: Rdata)
    requires ValidData(data)
    ensures WriteData(data, 0, map[]).Some? && RawData(data) == WriteData(data, 0, map[]).value.bytes
  {
    match data
    case NameData(target) => ValidIsWritten(target, 0, map[]);
    case SrvData(_, _, _, target) => ValidIsWritten(target, 6, map[]);
    case _ =>
  }

  /** Class, type, then the raw bytes of the record data; what runs out of bytes first comes first. */
  function RfcCompare(a: Record, b: Record): int
    requires ValidRecord(a) && ValidRecord(b)
  {
    Then(CompareInt(a.key.clazz, b.key.clazz),
         Then(CompareInt(a.key.rtype, b.key.rtype), CompareBytes(RawData(a.data), RawData(b.data), -1)))
  }

  // ---------- Where the two orders agree ----------

  /** Two different strings differ within the length of the shorter one. */
  predicate NotPrefix(a: Text, b: Text) {
    !(a < b) && !(b < a)
  }

  /** The shorter of two strings is the smaller one. */
  predicate LengthFirst(a: Text, b: Text) {
    |a| == |b| || (|a| < |b| <==> CompareBytes(a, b, -1) < 0)
  }

  /** The first labels that differ are in the order of their lengths. */
  predicate LabelsAgree(a: seq<Text>, b: seq<Text>) {
    if a == [] || b == [] then true
    else if a[0] == b[0] then LabelsAgree(a[1..], b[1..])
    else LengthFirst(a[0], b[0])
  }

  /** The same for names; the root has two texts, and the lone dot takes a byte more on the wire. */
  predicate NamesAgree(a: Text, b: Text)
    requires ValidName(a) && ValidName(b)
  {
    && LabelsAgree(Labels(a).value, Labels(b).value)
    && !(a == [DOT] && b == []) && !(a == [] && b == [DOT])
  }

  /** Data of one type for which the code's order is the order of the standard. */
  predicate DataAgrees(a: Rdata, b: Rdata)
    requires ValidData(a) && ValidData(b)
  {
    match (a, b)
    case (NameData(x), NameData(y)) => NamesAgree(x, y)
    case (SrvData(p, w, o, x), SrvData(p', w', o', y)) => p != p' || w != w' || o != o' || NamesAgree(x, y)
    case (HinfoData(c, o), HinfoData(c', o')) => if c == c' then LengthFirst(o, o') else LengthFirst(c, c')
    case (TxtData(s), TxtData(t)) => NotPrefix(Serialized(s), Serialized(t))
    case (GenericData(x), GenericData(y)) => NotPrefix(x, y)
    case _ => true
  }

  // ---------- Strings of bytes ----------

  lemma {:induction false} PrefixMatters(a: Text, b: Text)
    ensures CompareBytes(a, b, 1) == CompareBytes(a, b, -1) <==> NotPrefix(a, b)
  {
    if a != [] && b != [] && a[0] == b[0] {
      PrefixMatters(a[1..], b[1..]);
      assert a == [a[0]] + a[1..] && b == [b[0]] + b[1..];
    }
  }

  lemma {:induction false} ComparedInParts(a: Text, b: Text, x: Text, y: Text)
    requires |a| == |b|
    ensures CompareBytes(a + x, b + y, -1) == Then(CompareBytes(a, b, -1), CompareBytes(x, y, -1))
  {
    if a == [] {
      assert a + x == x && b + y == y;
    } else {
      assert (a + x)[1..] == a[1..] + x && (b + y)[1..] == b[1..] + y;
      if a[0] == b[0] {
        ComparedInParts(a[1..], b[1..], x, y);
      }
    }
  }

  lemma CompareOne(c: byte, d: byte)
    ensures CompareBytes([c], [d], -1) == CompareInt(c, d)
  {
    assert [c][1..] == [] && [d][1..] == [];
  }

  lemma CompareU16(v: uint16, w: uint16)
    ensures CompareBytes(U16(v), U16(w), -1) == CompareInt(v, w)
  {
    ComparedInParts([v / 256], [w / 256], [v % 256], [w % 256]);
    assert U16(v) == [v / 256] + [v % 256] && U16(w) == [w / 256] + [w % 256];
    CompareOne(v / 256, w / 256);
    CompareOne(v % 256, w % 256);
  }

  lemma CompareFields(p: uint16, w: uint16, o: uint16, p': uint16, w': uint16, o': uint16, x: Text, y: Text)
    ensures CompareBytes(SrvFields(p, w, o) + x, SrvFields(p', w', o') + y, -1) ==
            Then(CompareInt(p, p'), Then(CompareInt(w, w'), Then(CompareInt(o, o'), CompareBytes(x, y, -1))))
  {
    hide CompareBytes, U16;
    CompareU16(p, p');
    CompareU16(w, w');
    CompareU16(o, o');
    ComparedInParts(SrvFields(p, w, o), SrvFields(p', w', o'), x, y);
    ComparedInParts(U16(p) + U16(w), U16(p') + U16(w'), U16(o), U16(o'));
    ComparedInParts(U16(p), U16(p'), U16(w), U16(w'));
  }

  /** A string with its length in front, followed by more: the lengths decide first. */
  lemma CompareCounted(a: Text, b: Text, x: Text, y: Text)
    requires |a| <= 255 && |b| <= 255
    ensures CompareBytes([|a|] + a + x, [|b|] + b + y, -1) ==
            Then(CompareInt(|a|, |b|), Then(CompareBytes(a, b, -1), CompareBytes(x, y, -1)))
  {
    assert ([|a|] + a + x)[1..] == a + x && ([|b|] + b + y)[1..] == b + y;
    if |a| == |b| {
      ComparedInParts(a, b, x, y);
    }
  }

  lemma {:induction false} BytesSign(a: Text, b: Text, prefix: int)
    requires prefix == 1 || prefix == -1
    ensures -1 <= CompareBytes(a, b, prefix) <= 1
  {
    if a != [] && b != [] && a[0] == b[0] {
      BytesSign(a[1..], b[1..], prefix);
    }
  }

  lemma ComparedIsSign(a: Text, b: Text)
    ensures -1 <= CompareBytes(a, b, -1) <= 1
    ensures CompareBytes(a, b, -1) == 0 <==> a == b
  {
    BytesZero(a, b, -1);
    BytesSign(a, b, -1);
  }

  /** With the length in front, two strings compare as they do without it exactly if the shorter one is the smaller. */
  lemma CountedAgrees(a: Text, b: Text)
    ensures a != b ==>
              (Then(CompareInt(|a|, |b|), CompareBytes(a, b, -1)) == CompareBytes(a, b, -1) <==> LengthFirst(a, b))
  {
    ComparedIsSign(a, b);
  }

  // ---------- Names ----------

  function RawLabels(ls: seq<Text>): Text
    requires ValidLabels(ls)
  {
    if ls == [] then [0]
    else
      assert ValidLabel(ls[0]);
      [|ls[0]|] + ls[0] + RawLabels(ls[1..])
  }

  lemma {:induction false} RawNameByLabels(name: Text, at: nat)
    requires IsCString(name) && Split(name).Some?
    ensures WriteName(name, at, map[]).Some? && WriteName(name, at, map[]).value.bytes == RawLabels(Split(name).value)
    decreases |name|
  {
    hide Unescape, ValidLabel;
    if name != [] {
      var u := Unescape(name, LABEL_MAX).value;
      RawNameByLabels(u.rest, at + 1 + |u.content|);
      var ls := Split(name).value;
      assert ls[0] == u.content && ls[1..] == Split(u.rest).value;
    }
  }

  lemma LoneDotIsTwoBytes(at: nat)
    ensures WriteName([DOT], at, map[]) == Some(NameBytes([0, 0], map[[DOT] := at]))
  {
    assert Unescape([DOT], LABEL_MAX) == Some(Scanned([], []));
    var w := NameBytes([0], map[]);
    assert WriteName([], at + 1, map[]) == Some(w);
    assert WithLabel([DOT], [], at, w) == NameBytes([0, 0], map[[DOT] := at]);
  }

  lemma {:induction false} CompareRawLabels(a: seq<Text>, b: seq<Text>)
    requires ValidLabels(a) && ValidLabels(b)
    ensures CompareBytes(RawLabels(a), RawLabels(b), -1) == CompareLabels(a, b) <==> LabelsAgree(a, b)
  {
    hide CompareBytes, LengthFirst;
    if a != [] && b != [] {
      assert ValidLabel(a[0]) && ValidLabel(b[0]);
      CompareCounted(a[0], b[0], RawLabels(a[1..]), RawLabels(b[1..]));
      CountedAgrees(a[0], b[0]);
      ComparedIsSign(a[0], b[0]);
      CompareRawLabels(a[1..], b[1..]);
    } else {
      EndedFirst(a, b);
    }
  }

  lemma EndedFirst(a: seq<Text>, b: seq<Text>)
    requires ValidLabels(a) && ValidLabels(b) && (a == [] || b == [])
    ensures CompareBytes(RawLabels(a), RawLabels(b), -1) == CompareLabels(a, b)
  {
    if a != [] {
      assert ValidLabel(a[0]);
    }
    if b != [] {
      assert ValidLabel(b[0]);
    }
  }

  lemma CompareRawNames(a: Text, b: Text, at: nat)
    requires ValidName(a) && ValidName(b)
    ensures CompareBytes(RawName(a, at), RawName(b, at), -1) == CompareNames(a, b) <==> NamesAgree(a, b)
  {
    if a != [DOT] {
      RawNameByLabels(a, at);
    } else {
      LoneDotIsTwoBytes(at);
    }
    if b != [DOT] {
      RawNameByLabels(b, at);
    } else {
      LoneDotIsTwoBytes(at);
    }
    hide WriteName, Labels, Split;
    if a != [DOT] && b != [DOT] {
      CompareRawLabels(Labels(a).value, Labels(b).value);
    }
  }

  // ---------- Records ----------

  lemma CompareRawHinfo(c: Text, o: Text, c': Text, o': Text)
    requires |c| <= 255 && |o| <= 255 && |c'| <= 255 && |o'| <= 255
    ensures CompareBytes(CountedString(c) + CountedString(o), CountedString(c') + CountedString(o'), -1) ==
            Then(CompareBytes(c, c', -1), CompareBytes(o, o', -1)) <==>
            if c == c' then LengthFirst(o, o') else LengthFirst(c, c')
  {
    hide CompareBytes, LengthFirst;
    CompareCounted(c, c', CountedString(o), CountedString(o'));
    CompareCounted(o, o', [], []);
    assert CountedString(o) + [] == CountedString(o) && CountedString(o') + [] == CountedString(o');
    CountedAgrees(c, c');
    CountedAgrees(o, o');
    ComparedIsSign(c, c');
    ComparedIsSign(o, o');
    ComparedIsSign([], []);
    SameLengthFirst(o);
  }

  lemma SameLengthFirst(a: Text)
    ensures LengthFirst(a, a)
  {
  }

  lemma SameLengthAgrees(a: Text, b: Text)
    requires |a| == |b|
    ensures CompareBytes(a, b, 1) == CompareBytes(a, b, -1)
  {
    PrefixMatters(a, b);
  }

  lemma DataOrderAgrees(t: uint16, a: Rdata, b: Rdata)
    requires ValidData(a) && ValidData(b) && Fits(t, a) && Fits(t, b)
    ensures CompareBytes(RawData(a), RawData(b), -1) == CompareData(a, b) <==> DataAgrees(a, b)
  {
    hide CompareBytes, NamesAgree, LengthFirst, NotPrefix, RawName;
    match (a, b)
    case (NameData(x), NameData(y)) => CompareRawNames(x, y, 0);
    case (SrvData(p, w, o, x), SrvData(p', w', o', y)) =>
      CompareFields(p, w, o, p', w', o', RawName(x, 6), RawName(y, 6));
      CompareRawNames(x, y, 6);
    case (HinfoData(c, o), HinfoData(c', o')) => CompareRawHinfo(c, o, c', o');
    case (TxtData(s), TxtData(t)) => PrefixMatters(Serialized(s), Serialized(t));
    case (GenericData(x), GenericData(y)) => PrefixMatters(x, y);
    case (AData(x), AData(y)) => SameLengthAgrees(x, y);
    case (AaaaData(x), AaaaData(y)) => SameLengthAgrees(x, y);
    case _ =>
  }

  /** Two records for which the code's order is the order of the standard. */
  predicate Agree(a: Record, b: Record)
    requires ValidRecord(a) && ValidRecord(b)
  {
    a.key.clazz != b.key.clazz || a.key.rtype != b.key.rtype || DataAgrees(a.data, b.data)
  }

  /** The code orders two records as section 8.2 of RFC 6762 does exactly if class or type differ or their data agree. */
  lemma OrderAgrees(a: Record, b: Record)
    requires ValidRecord(a) && ValidRecord(b)
    ensures Compare(a, b) == RfcCompare(a, b) <==> Agree(a, b)
  {
    hide DataAgrees, CompareData, RawData, ValidName;
    if a.key.rtype == b.key.rtype {
      DataOrderAgrees(a.key.rtype, a.data, b.data);
    }
  }

  // ---------- A host that runs this code against one that follows the standard ----------

  lemma {:induction false} LabelsSign(a: seq<Text>, b: seq<Text>)
    ensures -1 <= CompareLabels(a, b) <= 1
  {
    if a != [] && b != [] {
      BytesSign(a[0], b[0], -1);
      LabelsSign(a[1..], b[1..]);
    }
  }

  lemma DataSign(a: Rdata, b: Rdata)
    requires ValidData(a) && ValidData(b)
    ensures -1 <= CompareData(a, b) <= 1
  {
    hide CompareBytes, CompareLabels;
    match (a, b)
    case (NameData(x), NameData(y)) => LabelsSign(Labels(x).value, Labels(y).value);
    case (SrvData(_, _, _, x), SrvData(_, _, _, y)) => LabelsSign(Labels(x).value, Labels(y).value);
    case (HinfoData(c, o), HinfoData(c', o')) =>
      BytesSign(c, c', -1);
      BytesSign(o, o', -1);
    case (TxtData(s), TxtData(t)) => BytesSign(Serialized(s), Serialized(t), 1);
    case (AData(x), AData(y)) => BytesSign(x, y, 1);
    case (AaaaData(x), AaaaData(y)) => BytesSign(x, y, 1);
    case (GenericData(x), GenericData(y)) => BytesSign(x, y, 1);
    case _ =>
  }

  lemma OneProbe(r: Record, s: Record)
    requires ValidRecord(r) && ValidRecord(s)
    ensures ValidEntries(Probing([r])) && (Withdraws(Probing([r]), s) <==> Compare(r, s) < 0)
  {
    var es := Probing([r]);
    assert es == [Entry(r, false, true)];
    assert es[0] in es;
    assert forall e :: e in es ==> e == es[0];
  }

  /**
   When a host that runs this code and one that follows the standard probe for one record each, exactly one of them
   withdraws exactly if the two orders agree; otherwise both withdraw or both go on.
   */
  lemma MixedHosts(mine: Record, theirs: Record)
    requires ValidRecord(mine) && ValidRecord(theirs)
    requires Compare(mine, theirs) != 0 && RfcCompare(mine, theirs) != 0
    ensures ValidEntries(Probing([mine]))
    ensures (Withdraws(Probing([mine]), theirs) <==> !(RfcCompare(theirs, mine) < 0)) <==> Agree(mine, theirs)
  {
    hide Agree, ValidName, RawData, CompareData, CompareBytes, Withdraws, Probing, ValidEntries;
    OneProbe(mine, theirs);
    OrderAgrees(mine, theirs);
    Signs(mine, theirs);
    BytesAntisymmetric(RawData(mine.data), RawData(theirs.data), -1);
  }

  lemma Signs(a: Record, b: Record)
    requires ValidRecord(a) && ValidRecord(b)
    ensures -1 <= Compare(a, b) <= 1 && -1 <= RfcCompare(a, b) <= 1
  {
    DataSign(a.data, b.data);
    BytesSign(RawData(a.data), RawData(b.data), -1);
  }

  // ---------- Inputs on which the orders differ ----------

  /** A TXT record that goes on where the other one ends is taken for the smaller one. */
  lemma LongerTxtComesFirst(a: Record, b: Record)
    requires ValidRecord(a) && ValidRecord(b) && a.key == b.key
    requires a.data == TxtData([[97]]) && b.data == TxtData([[98], [97]])
    ensures Compare(a, b) == 1 && RfcCompare(a, b) == -1
  {
    assert Serialized(a.data.strings) == [1, 97] by { assert Chunks([[97]][1..]) == []; }
    assert Chunks(b.data.strings[1..]) == [1, 97] by { assert b.data.strings[1..] == [[97]]; }
    assert Serialized(b.data.strings) == [1, 97] + [1, 98];
    PrefixSortsAfter([1, 97], [1, 98]);
    PrefixMatters([1, 97], [1, 97] + [1, 98]);
    ComparedIsSign([1, 97], [1, 97] + [1, 98]);
  }

  /** The processors "b" and "aa": the letters decide here, the lengths in the standard. */
  lemma LongerHinfoComesFirst(a: Record, b: Record)
    requires ValidRecord(a) && ValidRecord(b) && a.key == b.key
    requires a.data == HinfoData([98], []) && b.data == HinfoData([97, 97], [])
    ensures Compare(a, b) == 1 && RfcCompare(a, b) == -1
  {
    CompareCounted([98], [97, 97], CountedString([]), CountedString([]));
  }

  /** The targets "b" and "aa" likewise. */
  lemma LongerLabelComesFirst(a: Record, b: Record)
    requires ValidRecord(a) && ValidRecord(b) && a.key == b.key
    requires a.data == NameData([98]) && b.data == NameData([97, 97])
    ensures Compare(a, b) == 1 && RfcCompare(a, b) == -1
  {
    var x: seq<Text>, y: seq<Text> := [[98]], [[97, 97]];
    assert ValidLabel([98]) && ValidLabel([97, 97]) by { assert [97, 97][1..] == [97]; }
    assert Join(x) == [98];
    assert Escape([97, 97][1..]) == [97];
    assert Join(y) == [97, 97];
    SplitJoin(x);
    SplitJoin(y);
    RawNameByLabels([98], 0);
    RawNameByLabels([97, 97], 0);
  }
}
