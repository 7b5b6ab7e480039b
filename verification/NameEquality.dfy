/** Case-insensitive equality and hashing of domain names. */
module NameEquality {
  import opened Bytes
  import opened Names

  function LowerLabels(ls: seq<Text>): seq<Text> {
    seq(|ls|, i requires 0 <= i < |ls| => Lower(ls[i]))
  }

  /** What two names share exactly when the code takes them for the same name. */
  function Canonical(name: Text): seq<Text>
    requires ValidName(name)
  {
    LowerLabels(Labels(name).value)
  }

  /** The same byte, or the same of the 26 ASCII letters as a capital and as a small one. */
  predicate SameLetter(c: byte, d: byte) {
    c == d || (65 <= c <= 90 && d == c + 32) || (65 <= d <= 90 && c == d + 32)
  }

  predicate SameLabel(a: Text, b: Text) {
    |a| == |b| && forall i :: 0 <= i < |a| ==> SameLetter(a[i], b[i])
  }

  /** The same labels but for the case of ASCII letters, whatever escapes the two texts use. */
  predicate SameName(a: Text, b: Text)
    requires ValidName(a) && ValidName(b)
  {
    var la, lb := Labels(a).value, Labels(b).value;
    |la| == |lb| && forall i :: 0 <= i < |la| ==> SameLabel(la[i], lb[i])
  }

  lemma LowerIsSameLabel(a: Text, b: Text)
    ensures Lower(a) == Lower(b) <==> SameLabel(a, b)
  {
    if Lower(a) == Lower(b) {
      assert |Lower(a)| == |a| && |Lower(b)| == |b|;
      forall i | 0 <= i < |a|
        ensures SameLetter(a[i], b[i])
      {
        assert Lower(a)[i] == Lower(b)[i];
      }
    }
  }

  /** Names are taken for the same exactly if their labels agree but for the case of ASCII letters. */
  lemma CanonicalIsSameName(a: Text, b: Text)
    requires ValidName(a) && ValidName(b)
    ensures Canonical(a) == Canonical(b) <==> SameName(a, b)
  {
    var la, lb := Labels(a).value, Labels(b).value;
    hide Lower, SameLabel;
    assert |Canonical(a)| == |la| && |Canonical(b)| == |lb|;
    forall i | 0 <= i < |la| && i < |lb|
      ensures Canonical(a)[i] == Canonical(b)[i] <==> SameLabel(la[i], lb[i])
    {
      LowerIsSameLabel(la[i], lb[i]);
    }
    if SameName(a, b) {
      assert forall i :: 0 <= i < |la| ==> Canonical(a)[i] == Canonical(b)[i];
    } else if |la| == |lb| {
      var i :| 0 <= i < |la| && !SameLabel(la[i], lb[i]);
      assert Canonical(a)[i] != Canonical(b)[i];
    }
  }

  /** The labels of a name after its first one; the root has none. */
  lemma FirstLabel(name: Text)
    requires IsCString(name) && Labels(name).Some?
    ensures Unescape(name, LABEL_MAX).Some?
    ensures var ls, u := Labels(name).value, Unescape(name, LABEL_MAX).value;
            && IsCString(u.rest)
            && (ls == [] ==> u.content == [] && u.rest == [])
            && (ls != [] ==> u.content == ls[0] && ls[0] != [])
            && Labels(u.rest) == Some(if ls == [] then [] else ls[1..])
            && (u.rest == [] <==> |ls| <= 1)
  {
    if name == [DOT] {
      assert name[1..] == [];
    } else if name != [] {
      var u := Unescape(name, LABEL_MAX).value;
      assert Split(u.rest).Some?;
      assert Unescape([DOT], LABEL_MAX) == Some(Scanned([], [])) by {
        assert [DOT][1..] == [];
      }
      assert ([u.content] + Split(u.rest).value)[1..] == Split(u.rest).value;
    }
  }

  lemma LowerLabelsStep(a: seq<Text>, b: seq<Text>)
    requires ValidLabels(a) && ValidLabels(b)
    ensures (LowerLabels(a) == LowerLabels(b)) <==>
            (if a == [] || b == [] then a == b
             else Lower(a[0]) == Lower(b[0]) && LowerLabels(a[1..]) == LowerLabels(b[1..]))
  {
    if a != [] {
      assert LowerLabels(a) == [Lower(a[0])] + LowerLabels(a[1..]);
    }
    if b != [] {
      assert LowerLabels(b) == [Lower(b[0])] + LowerLabels(b[1..]);
    }
    if a != [] && b != [] {
      assert LowerLabels(a)[0] == Lower(a[0]) && LowerLabels(b)[0] == Lower(b[0]);
      assert LowerLabels(a)[1..] == LowerLabels(a[1..]) && LowerLabels(b)[1..] == LowerLabels(b[1..]);
    }
  }

  lemma LowerKeepsEmpty(l: Text)
    ensures Lower(l) == [] <==> l == []
  {
    assert |Lower(l)| == |l|;
  }

  /** avahi_domain_equal compares label by label, whatever escapes the two texts use. */
  method DomainEqual(a: Text, b: Text) returns (r: bool)
    requires ValidName(a) && ValidName(b)
    ensures r <==> Canonical(a) == Canonical(b)
    ensures r <==> SameName(a, b)
  {
    CanonicalIsSameName(a, b);
    hide SameName;
    var x, y := a, b;
    while true
      invariant IsCString(x) && IsCString(y) && Labels(x).Some? && Labels(y).Some?
      invariant Canonical(a) == Canonical(b) <==>
                LowerLabels(Labels(x).value) == LowerLabels(Labels(y).value)
      decreases |x| + |y|
    {
      FirstLabel(x);
      FirstLabel(y);
      LowerLabelsStep(Labels(x).value, Labels(y).value);
      var u := UnescapeLabel(x, LABEL_MAX);
      var v := UnescapeLabel(y, LABEL_MAX);
      LowerKeepsEmpty(u.value.content);
      LowerKeepsEmpty(v.value.content);
      if Lower(u.value.content) != Lower(v.value.content) {
        return false;
      }
      x, y := u.value.rest, v.value.rest;
      if x == [] && y == [] {
        return true;
      }
    }
  }

  // ---------- Hashing ----------

  /** The int a plain char converts to; whether char is signed depends on the platform. */
  function CharValue(c: byte, signed: bool): int {
    if signed && c >= 128 then c - 256 else c
  }

  function HashBytes(h: nat, s: Text, signed: bool): (r: nat)
    requires h < 0x1_0000_0000
    ensures r < 0x1_0000_0000
    decreases |s|
  {
    if s == [] then h
    else HashBytes((31 * h + CharValue(s[0], signed)) % 0x1_0000_0000, s[1..], signed)
  }

  /** One byte more multiplies the hash by 31 and is added to it. */
  lemma {:induction false} HashOneMore(h: nat, s: Text, c: byte, signed: bool)
    requires h < 0x1_0000_0000
    ensures HashBytes(h, s + [c], signed) ==
            (31 * HashBytes(h, s, signed) + if signed && c >= 128 then c - 256 else c) % 0x1_0000_0000
    decreases |s|
  {
    if s == [] {
      assert (s + [c])[1..] == [];
    } else {
      HashOneMore((31 * h + CharValue(s[0], signed)) % 0x1_0000_0000, s[1..], c, signed);
      assert (s + [c])[1..] == s[1..] + [c];
    }
  }

  function HashLabels(h: nat, ls: seq<Text>, signed: bool): (r: nat)
    requires h < 0x1_0000_0000
    ensures r < 0x1_0000_0000
    decreases |ls|
  {
    if ls == [] then h else HashLabels(HashBytes(h, ls[0], signed), ls[1..], signed)
  }

  method HashLabel(h: nat, l: Text, signed: bool) returns (hash: nat)
    requires h < 0x1_0000_0000
    ensures hash < 0x1_0000_0000 && hash == HashBytes(h, Lower(l), signed)
  {
    hash := h;
    var i := 0;
    ghost var lower := Lower(l);
    assert lower[0..] == lower;
    while i < |l|
      invariant 0 <= i <= |l| && hash < 0x1_0000_0000
      invariant HashBytes(h, lower, signed) == HashBytes(hash, lower[i..], signed)
    {
      assert lower[i..][1..] == lower[i + 1..];
      hash := (31 * hash + CharValue(ToLower(l[i]), signed)) % 0x1_0000_0000;
      i := i + 1;
    }
  }

  /**
   avahi_domain_hash is a function of the canonical form alone, so two names that are equal
   hash alike, with signed and with unsigned char.
   */
  method DomainHash(name: Text, signed: bool) returns (hash: nat)
    requires ValidName(name)
    ensures hash == HashLabels(0, Canonical(name), signed)
  {
    hash := 0;
    var rest := name;
    while rest != []
      invariant IsCString(rest) && Labels(rest).Some? && hash < 0x1_0000_0000
      invariant HashLabels(0, Canonical(name), signed) ==
                HashLabels(hash, LowerLabels(Labels(rest).value), signed)
      decreases |rest|
    {
      FirstLabel(rest);
      var u := UnescapeLabel(rest, LABEL_MAX);
      ghost var ls := Labels(rest).value;
      if ls != [] {
        assert LowerLabels(ls)[1..] == LowerLabels(ls[1..]);
      }
      hash := HashLabel(hash, u.value.content, signed);
      rest := u.value.rest;
    }
  }
}
