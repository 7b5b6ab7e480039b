/**
 Domain names as the C code keeps them: escaped text, read and written label by label.
 A name in normal form is the text Join gives for a list of valid labels.
 */
module Names {
  import opened Bytes

  const LABEL_MAX := 64
  const DOMAIN_NAME_MAX := 1014

  // ---------- UTF-8 ----------

  predicate Continuation(c: byte) {
    0x80 <= c < 0xC0
  }

  predicate UnicodeValid(v: nat) {
    v < 0x110000 && !(0xD800 <= v < 0xE000) && !(0xFDD0 <= v <= 0xFDEF) && v % 0x1_0000 < 0xFFFE
  }

  /** The value of a sequence whose last two bytes are continuation bytes. */
  function CodePoint(top: nat, high: nat, c: byte, d: byte): nat
    requires Continuation(c) && Continuation(d)
  {
    top * 0x4_0000 + high * 4096 + (c - 0x80) * 64 + (d - 0x80)
  }

  /** avahi_utf8_valid, on a string without NUL. */
  predicate Utf8Valid(s: Text)
    decreases |s|
  {
    if s == [] then true
    else if s[0] < 0x80 then Utf8Valid(s[1..])
    else if 0xC0 <= s[0] < 0xE0 then
      s[0] >= 0xC2 && |s| >= 2 && Continuation(s[1]) && Utf8Valid(s[2..])
    else if 0xE0 <= s[0] < 0xF0 then
      |s| >= 3 && Continuation(s[1]) && Continuation(s[2]) &&
      (var v := CodePoint(0, s[0] - 0xE0, s[1], s[2]); v >= 0x800 && UnicodeValid(v)) &&
      Utf8Valid(s[3..])
    else if 0xF0 <= s[0] < 0xF8 then
      |s| >= 4 && Continuation(s[1]) && Continuation(s[2]) && Continuation(s[3]) &&
      (var v := CodePoint(s[0] - 0xF0, s[1] - 0x80, s[2], s[3]); v >= 0x1_0000 && UnicodeValid(v)) &&
      Utf8Valid(s[4..])
    else false
  }

  /** The characters of Unicode: no surrogates and no noncharacters. */
  predicate Character(v: nat) {
    v <= 0x10FFFF && !(0xD800 <= v <= 0xDFFF) && !(0xFDD0 <= v <= 0xFDEF) && v % 0x1_0000 != 0xFFFE && v % 0x1_0000 != 0xFFFF
  }

  /** One character in UTF-8, in as few bytes as possible. */
  function Utf8Of(v: nat): (r: Text)
    requires Character(v)
    ensures 1 <= |r| <= 4
  {
    if v < 0x80 then [v]
    else if v < 0x800 then [0xC0 + v / 64, 0x80 + v % 64]
    else if v < 0x1_0000 then [0xE0 + v / 4096, 0x80 + v / 64 % 64, 0x80 + v % 64]
    else [0xF0 + v / 0x4_0000, 0x80 + v / 4096 % 64, 0x80 + v / 64 % 64, 0x80 + v % 64]
  }

  function Utf8(vs: seq<nat>): Text
    requires forall v :: v in vs ==> Character(v)
  {
    if vs == [] then [] else Utf8Of(vs[0]) + Utf8(vs[1..])
  }

  /** Any characters, encoded, are accepted. */
  lemma {:induction false} EncodedIsUtf8(vs: seq<nat>)
    requires forall v :: v in vs ==> Character(v)
    ensures Utf8Valid(Utf8(vs))
  {
    if vs != [] {
      EncodedIsUtf8(vs[1..]);
      EncodedFirst(vs[0], Utf8(vs[1..]));
    }
  }

  lemma ThreeParts(v: nat, a: nat, b: nat, c: nat)
    requires b < 64 && c < 64
    ensures v == a * 4096 + b * 64 + c <==> v / 4096 == a && v / 64 % 64 == b && v % 64 == c
  {
  }

  lemma FourParts(v: nat, a: nat, b: nat, c: nat, d: nat)
    requires b < 64 && c < 64 && d < 64
    ensures v == a * 0x4_0000 + b * 4096 + c * 64 + d <==>
            v / 0x4_0000 == a && v / 4096 % 64 == b && v / 64 % 64 == c && v % 64 == d
  {
    TwoParts(v, a * 4096 + b * 64 + c, d);
    ThreeParts(v / 64, a, b, c);
    Nested(v);
  }

  lemma TwoParts(v: nat, a: nat, b: nat)
    requires b < 64
    ensures v == a * 64 + b <==> v / 64 == a && v % 64 == b
  {
  }

  lemma Nested(v: nat)
    ensures v / 64 / 4096 == v / 0x4_0000 && v / 64 / 64 == v / 4096
  {
  }

  lemma AcceptTwo(s: Text, rest: Text)
    requires |s| >= 2 && 0xC2 <= s[0] < 0xE0 && 0x80 <= s[1] < 0xC0 && s[2..] == rest && Utf8Valid(rest)
    ensures Utf8Valid(s)
  {
  }

  lemma AcceptThree(s: Text, v: nat, rest: Text)
    requires |s| >= 3 && 0xE0 <= s[0] < 0xF0 && Continuation(s[1]) && Continuation(s[2])
    requires v == CodePoint(0, s[0] - 0xE0, s[1], s[2]) && 0x800 <= v && Character(v)
    requires s[3..] == rest && Utf8Valid(rest)
    ensures Utf8Valid(s)
  {
  }

  lemma AcceptFour(s: Text, v: nat, rest: Text)
    requires |s| >= 4 && 0xF0 <= s[0] < 0xF8 && Continuation(s[1]) && Continuation(s[2]) && Continuation(s[3])
    requires v == CodePoint(s[0] - 0xF0, s[1] - 0x80, s[2], s[3]) && 0x1_0000 <= v && Character(v)
    requires s[4..] == rest && Utf8Valid(rest)
    ensures Utf8Valid(s)
  {
  }

  lemma EncodedFirst(v: nat, rest: Text)
    requires Character(v) && Utf8Valid(rest)
    ensures Utf8Valid(Utf8Of(v) + rest)
  {
    var s := Utf8Of(v) + rest;
    assert s[|Utf8Of(v)|..] == rest;
    if v >= 0x80 {
      hide Utf8Valid;
      if v < 0x800 {
        AcceptTwo(s, rest);
      } else if v < 0x1_0000 {
        ThreeParts(v, v / 4096, v / 64 % 64, v % 64);
        AcceptThree(s, v, rest);
      } else {
        FourParts(v, v / 0x4_0000, v / 4096 % 64, v / 64 % 64, v % 64);
        AcceptFour(s, v, rest);
      }
    }
  }

  /** Whatever is accepted is the encoding of some characters. */
  lemma {:induction false} Utf8IsEncoded(s: Text) returns (vs: seq<nat>)
    requires Utf8Valid(s)
    ensures (forall v :: v in vs ==> Character(v)) && s == Utf8(vs)
    decreases |s|
  {
    vs := [];
    if s != [] {
      var v, n := FirstCharacter(s);
      var rest := Utf8IsEncoded(s[n..]);
      vs := [v] + rest;
      assert s == s[..n] + s[n..];
    }
  }

  lemma FirstCharacter(s: Text) returns (v: nat, n: nat)
    requires Utf8Valid(s) && s != []
    ensures 1 <= n <= |s| && Character(v) && s[..n] == Utf8Of(v) && Utf8Valid(s[n..])
  {
    var a: nat := s[0];
    if a < 0x80 {
      v, n := a, 1;
    } else if a < 0xE0 {
      v, n := TwoBytes(s), 2;
    } else if a < 0xF0 {
      v, n := CodePoint(0, a - 0xE0, s[1], s[2]), 3;
      hide Utf8Valid;
      ThreeParts(v, a - 0xE0, s[1] - 0x80, s[2] - 0x80);
    } else {
      v, n := CodePoint(a - 0xF0, s[1] - 0x80, s[2], s[3]), 4;
      hide Utf8Valid;
      FourParts(v, a - 0xF0, s[1] - 0x80, s[2] - 0x80, s[3] - 0x80);
    }
  }

  function TwoBytes(s: Text): (v: nat)
    requires |s| >= 2 && 0xC2 <= s[0] < 0xE0 && Continuation(s[1])
    ensures 0x80 <= v < 0x800 && v / 64 == s[0] - 0xC0 && v % 64 == s[1] - 0x80
  {
    var high: int, low: int := s[0], s[1];
    (high - 0xC0) * 64 + (low - 0x80)
  }

  // ---------- One label ----------

  predicate ValidLabel(l: Text) {
    0 < |l| < LABEL_MAX && IsCString(l) && Utf8Valid(l)
  }

  predicate ValidLabels(ls: seq<Text>) {
    forall l :: l in ls ==> ValidLabel(l)
  }

  /** Labels have 1 to 63 bytes, none of them zero, and are UTF-8; names have at most 1013 bytes as text. */
  lemma Limits(l: Text, name: Text)
    ensures ValidLabel(l) <==> 1 <= |l| <= 63 && Utf8Valid(l) && forall c :: c in l ==> c != 0
    ensures ValidName(name) ==> |name| <= 1013
  {
  }

  predicate Proper(c: byte) {
    c == UNDERSCORE || c == DASH || IsDigit(c) || 97 <= c <= 122 || 65 <= c <= 90
  }

  function EscapeByte(c: byte): (r: Text)
    ensures |r| >= 1
  {
    if c == DOT || c == BACKSLASH then [BACKSLASH, c]
    else if Proper(c) then [c]
    else [BACKSLASH, 48 + c / 100, 48 + c / 10 % 10, 48 + c % 10]
  }

  function Escape(l: Text): (r: Text)
    ensures |r| >= |l|
  {
    if l == [] then [] else EscapeByte(l[0]) + Escape(l[1..])
  }

  datatype Scanned = Scanned(content: Text, rest: Text)

  function Cons(c: byte, s: Option<Scanned>): Option<Scanned> {
    match s
    case None => None
    case Some(x) => Some(Scanned([c] + x.content, x.rest))
  }

  function DecimalValue(hundreds: int, tens: int, ones: int): int {
    (hundreds - 48) * 100 + (tens - 48) * 10 + (ones - 48)
  }

  /** The three-digit escape at the head of s, if s starts with one that denotes a byte other than NUL. */
  function DecimalEscape(s: Text): Option<byte> {
    if |s| < 3 || !IsDigit(s[0]) || !IsDigit(s[1]) || !IsDigit(s[2]) then None
    else
      var n := DecimalValue(s[0], s[1], s[2]);
      if n > 255 || n == 0 then None else Some(n)
  }

  /** The first label of a name and what follows its dot, without any limit on its length. */
  function Scan(name: Text): (r: Option<Scanned>)
    ensures r.Some? && name != [] ==> |r.value.rest| < |name|
    ensures r.Some? ==> |r.value.rest| <= |name|
    ensures r.Some? && IsCString(name) ==> IsCString(r.value.content) && IsCString(r.value.rest)
    decreases |name|
  {
    if name == [] then Some(Scanned([], []))
    else if name[0] == DOT then Some(Scanned([], name[1..]))
    else if name[0] == BACKSLASH then
      if |name| == 1 then None
      else if name[1] == BACKSLASH || name[1] == DOT then Cons(name[1], Scan(name[2..]))
      else match DecimalEscape(name[1..])
           case None => None
           case Some(n) => Cons(n, Scan(name[4..]))
    else Cons(name[0], Scan(name[1..]))
  }

  /** avahi_unescape_label with a buffer of `size` bytes. */
  function Unescape(name: Text, size: nat): (r: Option<Scanned>)
    ensures r.Some? && name != [] ==> |r.value.rest| < |name|
    ensures r.Some? && IsCString(name) ==> IsCString(r.value.content) && IsCString(r.value.rest)
  {
    match Scan(name)
    case None => None
    case Some(x) => if |x.content| < size && Utf8Valid(x.content) then Some(x) else None
  }

  function Prefixed(done: Text, s: Option<Scanned>): Option<Scanned> {
    match s
    case None => None
    case Some(x) => Some(Scanned(done + x.content, x.rest))
  }

  lemma PrefixedNil(s: Option<Scanned>)
    ensures Prefixed([], s) == s
  {
    if s.Some? {
      assert [] + s.value.content == s.value.content;
    }
  }

  lemma PrefixedCons(done: Text, c: byte, s: Option<Scanned>)
    ensures Prefixed(done, Cons(c, s)) == Prefixed(done + [c], s)
  {
    if s.Some? {
      assert done + ([c] + s.value.content) == done + [c] + s.value.content;
    }
  }

  /** Scan, unfolded once at a position inside the name. */
  lemma ScanAt(name: Text, i: nat)
    requires i <= |name|
    ensures i == |name| ==> Scan(name[i..]) == Some(Scanned([], []))
    ensures i < |name| && name[i] == DOT ==> Scan(name[i..]) == Some(Scanned([], name[i + 1..]))
    ensures i < |name| && name[i] != DOT && name[i] != BACKSLASH ==>
              Scan(name[i..]) == Cons(name[i], Scan(name[i + 1..]))
    ensures i + 1 == |name| && name[i] == BACKSLASH ==> Scan(name[i..]).None?
    ensures i + 1 < |name| && name[i] == BACKSLASH && (name[i + 1] == BACKSLASH || name[i + 1] == DOT) ==>
              Scan(name[i..]) == Cons(name[i + 1], Scan(name[i + 2..]))
    ensures i + 1 < |name| && name[i] == BACKSLASH && name[i + 1] != BACKSLASH && name[i + 1] != DOT ==>
              match DecimalEscape(name[i + 1..])
              case None => Scan(name[i..]).None?
              case Some(n) => i + 4 <= |name| && Scan(name[i..]) == Cons(n, Scan(name[i + 4..]))
  {
    var here := name[i..];
    if i < |name| {
      assert here[1..] == name[i + 1..];
    }
    if i + 1 < |name| {
      assert here[2..] == name[i + 2..];
    }
    if i + 3 < |name| {
      assert here[4..] == name[i + 4..];
    }
  }

  method UnescapeLabel(name: Text, size: nat) returns (r: Option<Scanned>)
    requires size > 0
    ensures r == Unescape(name, size)
  {
    var pos, dest: Text := 0, [];
    hide Scan;
    assert name[0..] == name;
    PrefixedNil(Scan(name));
    while true
      invariant 0 <= pos <= |name| && |dest| <= size
      invariant Scan(name) == Prefixed(dest, Scan(name[pos..]))
      decreases |name| - pos
    {
      if |dest| >= size {
        return None;
      }
      ScanAt(name, pos);
      if pos < |name| && name[pos] == DOT {
        pos := pos + 1;
        break;
      }
      if pos == |name| {
        break;
      }
      if name[pos] == BACKSLASH {
        pos := pos + 1;
        if pos == |name| {
          return None;
        } else if name[pos] == BACKSLASH || name[pos] == DOT {
          PrefixedCons(dest, name[pos], Scan(name[pos + 1..]));
          dest := dest + [name[pos]];
          pos := pos + 1;
        } else if IsDigit(name[pos]) {
          if pos + 2 >= |name| || !IsDigit(name[pos + 1]) || !IsDigit(name[pos + 2]) {
            return None;
          }
          var n := DecimalValue(name[pos], name[pos + 1], name[pos + 2]);
          if n > 255 || n == 0 {
            return None;
          }
          PrefixedCons(dest, n, Scan(name[pos + 3..]));
          dest := dest + [n];
          pos := pos + 3;
        } else {
          return None;
        }
      } else {
        PrefixedCons(dest, name[pos], Scan(name[pos + 1..]));
        dest := dest + [name[pos]];
        pos := pos + 1;
      }
    }
    assert dest + [] == dest;
    if !Utf8Valid(dest) {
      return None;
    }
    return Some(Scanned(dest, name[pos..]));
  }

  lemma {:induction false} EscapeConcat(a: Text, b: Text)
    ensures Escape(a + b) == Escape(a) + Escape(b)
  {
    if a == [] {
      assert a + b == b;
    } else {
      EscapeConcat(a[1..], b);
      assert (a + b)[1..] == a[1..] + b;
      Assoc(EscapeByte(a[0]), Escape(a[1..]), Escape(b));
    }
  }

  /** Escaping one byte more extends what was written so far. */
  lemma EscapeStep(l: Text, i: nat)
    requires i < |l|
    ensures Escape(l[..i + 1]) == Escape(l[..i]) + EscapeByte(l[i])
    ensures |Escape(l[..i])| + |EscapeByte(l[i])| <= |Escape(l)|
    ensures Escape(l[..i]) < Escape(l)
  {
    hide EscapeByte;
    EscapeConcat(l[..i], [l[i]]);
    assert l[..i + 1] == l[..i] + [l[i]];
    assert Escape([l[i]]) == EscapeByte(l[i]);
    EscapeConcat(l[..i + 1], l[i + 1..]);
    assert l == l[..i + 1] + l[i + 1..];
  }

  /**
   avahi_escape_label into a buffer with `size` bytes left: `out` is what was written, and
   `ok` says that all of it, and the NUL, fitted.
   */
  method EscapeLabel(src: Text, size: nat) returns (ok: bool, out: Text, left: nat)
    requires size > 0
    ensures ok <==> |Escape(src)| < size
    ensures ok ==> out == Escape(src)
    ensures !ok ==> out < Escape(src)
    ensures left == size - |out| && left > 0
  {
    out, left := [], size;
    var i := 0;
    while i < |src|
      invariant 0 <= i <= |src|
      invariant out == Escape(src[..i])
      invariant left == size - |out| && left > 0
    {
      EscapeStep(src, i);
      if src[i] == DOT || src[i] == BACKSLASH {
        if left < 3 {
          return false, out, left;
        }
        out, left := out + [BACKSLASH, src[i]], left - 2;
      } else if Proper(src[i]) {
        if left < 2 {
          return false, out, left;
        }
        out, left := out + [src[i]], left - 1;
      } else {
        if left < 5 {
          return false, out, left;
        }
        out := out + [BACKSLASH, 48 + src[i] / 100, 48 + src[i] / 10 % 10, 48 + src[i] % 10];
        left := left - 4;
      }
      i := i + 1;
    }
    assert src[..i] == src;
    return true, out, left;
  }

  /** Letters, digits, dashes and underscores. */
  predicate PlainByte(c: byte) {
    97 <= c <= 122 || 65 <= c <= 90 || 48 <= c <= 57 || c == 45 || c == 95
  }

  /**
   What escaping leaves alone, and what it writes for anything else: a dot or a backslash behind a backslash, and three
   digits behind a backslash for any other byte.
   */
  lemma EscapesOf(c: byte)
    ensures PlainByte(c) ==> Escape([c]) == [c]
    ensures c == 46 || c == 92 ==> Escape([c]) == [92, c]
    ensures !PlainByte(c) && c != 46 && c != 92 ==>
              var e := Escape([c]);
              && |e| == 4 && e[0] == 92 && (forall i :: 1 <= i < 4 ==> 48 <= e[i] <= 57)
              && 100 * (e[1] - 48) + 10 * (e[2] - 48) + (e[3] - 48) == c
  {
    assert [c][1..] == [];
    assert Escape([c]) == EscapeByte(c) + [];
  }

  /** An escaped label is what its bytes are escaped to, so it is the label itself exactly if every byte is plain. */
  lemma {:induction false} EscapeLeavesAlone(l: Text)
    ensures Escape(l) == l <==> forall c :: c in l ==> PlainByte(c)
    ensures |Escape(l)| == |l| ==> Escape(l) == l
  {
    if l != [] {
      EscapeLeavesAlone(l[1..]);
      EscapesOf(l[0]);
      assert Escape([l[0]]) == EscapeByte(l[0]) + Escape([]) by { assert [l[0]][1..] == []; }
      assert Escape([l[0]]) == EscapeByte(l[0]);
      assert l == [l[0]] + l[1..];
      assert forall c :: c in l <==> c == l[0] || c in l[1..];
      hide EscapeByte;
      if PlainByte(l[0]) {
        assert Escape(l) == [l[0]] + Escape(l[1..]);
        if Escape(l) == l {
          assert Escape(l)[1..] == Escape(l[1..]);
        }
      } else {
        assert |Escape(l)| > |l|;
      }
    }
  }

  lemma ScanEscapedByte(c: byte, tail: Text)
    ensures Scan(EscapeByte(c) + tail) == if c == 0 then None else Cons(c, Scan(tail))
  {
    var e := EscapeByte(c) + tail;
    if c == DOT || c == BACKSLASH {
      assert e[2..] == tail;
    } else if Proper(c) {
      assert e[1..] == tail;
    } else {
      assert e[4..] == tail;
      hide Scan;
      ScanNumbered(c, e);
    }
  }

  lemma ScanNumbered(c: byte, e: Text)
    requires |e| >= 4 && e[0] == BACKSLASH
    requires e[1] == 48 + c / 100 && e[2] == 48 + c / 10 % 10 && e[3] == 48 + c % 10
    ensures Scan(e) == if c == 0 then None else Cons(c, Scan(e[4..]))
  {
    hide DecimalEscape;
    assert 48 <= e[1] <= 50;
    DecimalDigits(c, e[1..]);
  }

  lemma DecimalDigits(c: byte, s: Text)
    requires |s| >= 3 && s[0] == 48 + c / 100 && s[1] == 48 + c / 10 % 10 && s[2] == 48 + c % 10
    ensures DecimalEscape(s) == if c == 0 then None else Some(c)
  {
  }

  /** Unescaping inverts escaping, up to the end of the name or the next dot, unless the label holds a NUL. */
  lemma {:induction false} ScanEscape(l: Text, rest: Text)
    requires rest == [] || rest[0] == DOT
    ensures Scan(Escape(l) + rest) ==
            if IsCString(l) then Some(Scanned(l, if rest == [] then [] else rest[1..])) else None
  {
    if l == [] {
      assert Escape(l) + rest == rest;
    } else {
      ScanEscape(l[1..], rest);
      ScanEscapedByte(l[0], Escape(l[1..]) + rest);
      Assoc(EscapeByte(l[0]), Escape(l[1..]), rest);
      assert [l[0]] + l[1..] == l;
    }
  }

  // ---------- Whole names ----------

  function Join(ls: seq<Text>): Text {
    if ls == [] then []
    else if |ls| == 1 then Escape(ls[0])
    else Escape(ls[0]) + [DOT] + Join(ls[1..])
  }

  function ConsLabel(l: Text, s: Option<seq<Text>>): Option<seq<Text>> {
    match s
    case None => None
    case Some(ls) => Some([l] + ls)
  }

  /** The labels of a name, read until its end; an empty label is not allowed. */
  function Split(name: Text): (r: Option<seq<Text>>)
    ensures r.Some? && IsCString(name) ==> ValidLabels(r.value)
    decreases |name|
  {
    if name == [] then Some([])
    else
      match Unescape(name, LABEL_MAX)
      case None => None
      case Some(x) => if x.content == [] then None else ConsLabel(x.content, Split(x.rest))
  }

  /** The labels of a name as avahi_normalize_name takes them: a lone dot is the root. */
  function Labels(name: Text): (r: Option<seq<Text>>)
    ensures r.Some? && IsCString(name) ==> ValidLabels(r.value)
  {
    if name == [DOT] then Some([]) else Split(name)
  }

  /** avahi_is_valid_domain_name */
  predicate ValidName(name: Text) {
    IsCString(name) && |name| < DOMAIN_NAME_MAX && Labels(name).Some?
  }

  /** The names the rest of the code stores: what normalization produces. */
  predicate Normal(name: Text) {
    IsCString(name) && Split(name).Some? && Join(Split(name).value) == name
  }

  lemma {:induction false} EscapeIsCString(l: Text)
    ensures IsCString(Escape(l))
    ensures l != [] ==> Escape(l)[0] != DOT
  {
    if l != [] {
      EscapeIsCString(l[1..]);
      assert 0 !in EscapeByte(l[0]);
    }
  }

  lemma {:induction false} JoinIsCString(ls: seq<Text>)
    ensures IsCString(Join(ls))
  {
    if ls != [] {
      EscapeIsCString(ls[0]);
      JoinIsCString(ls[1..]);
    }
  }

  /** Labels of a length the wire format allows, with any bytes. */
  predicate ShortLabels(ls: seq<Text>) {
    forall l :: l in ls ==> 0 < |l| < LABEL_MAX
  }

  lemma UnescapeJoin(ls: seq<Text>)
    requires ls != [] && 0 < |ls[0]| < LABEL_MAX
    ensures Join(ls) != []
    ensures Unescape(Join(ls), LABEL_MAX) ==
            if ValidLabel(ls[0]) then Some(Scanned(ls[0], Join(ls[1..]))) else None
  {
    if |ls| == 1 {
      ScanEscape(ls[0], []);
      assert Escape(ls[0]) + [] == Join(ls);
    } else {
      var rest := [DOT] + Join(ls[1..]);
      ScanEscape(ls[0], rest);
      assert Join(ls) == Escape(ls[0]) + rest;
      assert rest[1..] == Join(ls[1..]);
    }
  }

  /** Taking the first label off a joined name leaves the joined rest. */
  lemma ScanJoin(ls: seq<Text>)
    requires ls != [] && ValidLabels(ls)
    ensures Join(ls) != []
    ensures Unescape(Join(ls), LABEL_MAX) == Some(Scanned(ls[0], Join(ls[1..])))
  {
    assert ValidLabel(ls[0]);
    UnescapeJoin(ls);
  }

  /** A joined list of labels splits into the same labels exactly when each of them is valid. */
  lemma {:induction false} SplitShort(ls: seq<Text>)
    requires ShortLabels(ls)
    ensures Split(Join(ls)) == if ValidLabels(ls) then Some(ls) else None
    ensures Join(ls) != [DOT]
  {
    if ls != [] {
      assert ls[0] in ls;
      UnescapeJoin(ls);
      SplitShort(ls[1..]);
      assert ls == [ls[0]] + ls[1..];
      EscapeIsCString(ls[0]);
      assert Join(ls)[0] == Escape(ls[0])[0];
    }
  }

  /** Splitting inverts joining, so a joined list of valid labels is in normal form. */
  lemma SplitJoin(ls: seq<Text>)
    requires ValidLabels(ls)
    ensures Split(Join(ls)) == Some(ls)
    ensures Labels(Join(ls)) == Some(ls)
    ensures Normal(Join(ls))
  {
    forall l | l in ls
      ensures 0 < |l| < LABEL_MAX
    {
      assert ValidLabel(l);
    }
    JoinIsCString(ls);
    SplitShort(ls);
  }

  lemma NormalIsJoin(name: Text)
    requires Normal(name)
    ensures ValidLabels(Split(name).value) && name == Join(Split(name).value)
    ensures Labels(name) == Split(name)
  {
    SplitJoin(Split(name).value);
  }

  /** The text normalization writes when it fits. */
  function NormalForm(name: Text): Option<Text> {
    match Labels(name)
    case None => None
    case Some(ls) => Some(Join(ls))
  }

  /**
   Normalization gives a normal form, keeps every label, and leaves a normal form alone.
   */
  lemma NormalFormIsNormal(name: Text)
    requires IsCString(name) && NormalForm(name).Some?
    ensures Normal(NormalForm(name).value)
    ensures Labels(NormalForm(name).value) == Labels(name)
    ensures NormalForm(NormalForm(name).value) == NormalForm(name)
    ensures Normal(name) <==> NormalForm(name).value == name
  {
    SplitJoin(Labels(name).value);
    if Normal(name) {
      NormalIsJoin(name);
    }
  }

  lemma {:induction false} JoinLength(ls: seq<Text>)
    requires ValidLabels(ls)
    ensures |Join(ls)| + 1 >= 2 * |ls|
  {
    if ls != [] {
      assert ValidLabel(ls[0]);
      JoinLength(ls[1..]);
    }
  }

  /**
   What avahi_normalize_name does. `terminated` says that the NUL was written last; a label
   that does not fit is ignored by the source, which then goes on with the next one.
   */
  datatype NormalizeOutcome =
    | Rejected
    | Aborted
    | Written(text: Text, terminated: bool)

  function Add<T>(done: seq<T>, s: Option<seq<T>>): Option<seq<T>> {
    match s
    case None => None
    case Some(ls) => Some(done + ls)
  }

  lemma {:induction false} JoinConcat(a: seq<Text>, b: seq<Text>)
    requires a != []
    ensures Join(a + b) == if b == [] then Join(a) else Join(a) + [DOT] + Join(b)
  {
    hide Escape;
    if b == [] {
      assert a + b == a;
    } else if |a| == 1 {
      assert (a + b)[1..] == b;
    } else {
      JoinConcat(a[1..], b);
      assert (a + b)[1..] == a[1..] + b;
      var head := Escape(a[0]) + [DOT];
      Assoc(head, Join(a[1..]) + [DOT], Join(b));
      Assoc(head, Join(a[1..]), [DOT]);
    }
  }

  lemma JoinGrows(a: seq<Text>, l: Text, b: seq<Text>)
    ensures Join(a + [l]) == if a == [] then Escape(l) else Join(a) + [DOT] + Escape(l)
    ensures |Join(a + [l])| <= |Join(a + ([l] + b))|
  {
    if a != [] {
      JoinConcat(a, [l]);
    }
    JoinConcat(a + [l], b);
    Assoc(a, [l], b);
  }

  lemma LoneDot(s: Text)
    requires s != [] && Unescape(s, LABEL_MAX) == Some(Scanned([], []))
    ensures s == [DOT]
  {
  }

  lemma NormalizeStep(done: seq<Text>, l: Text, rest: Option<seq<Text>>, size: nat)
    ensures Add(done, ConsLabel(l, rest)) == Add(done + [l], rest)
    ensures Join(done + [l]) == if done == [] then Escape(l) else Join(done) + [DOT] + Escape(l)
    ensures rest.Some? ==> |Join(done + [l])| <= |Join(Add(done, ConsLabel(l, rest)).value)|
  {
    if rest.Some? {
      JoinGrows(done, l, rest.value);
      Assoc(done, [l], rest.value);
    } else {
      JoinGrows(done, l, []);
    }
  }

  /**
   The normal form is what comes out exactly when the name is well formed and its normal form
   is shorter than the buffer.
   */
  method NormalizeName(s: Text, size: nat) returns (r: NormalizeOutcome)
    requires IsCString(s) && size > 0
    ensures NormalForm(s).Some? ==>
              (r == Written(NormalForm(s).value, true) <==> |NormalForm(s).value| < size)
    ensures NormalForm(s).None? ==> !r.Written?
  {
    var rest, out, left, empty, terminated: bool := s, [], size, true, true;
    ghost var done: seq<Text>, fits := [], true;
    ghost var all := Split(s);
    if all.Some? {
      assert [] + all.value == all.value;
    }
    while rest != []
      invariant IsCString(rest)
      invariant empty <==> done == []
      invariant left == size - |out|
      invariant all == Add(done, Split(rest))
      invariant !empty ==> s != [DOT]
      invariant empty ==> rest == s && out == [] && terminated && fits
      invariant fits ==> out == Join(done) && terminated && left > 0
      invariant !fits ==> |Join(done)| >= size && |out| < |Join(done)|
      decreases |rest|
    {
      var u := UnescapeLabel(rest, LABEL_MAX);
      if u.None? {
        return Rejected;
      }
      var l := u.value.content;
      if l == [] {
        if u.value.rest == [] && empty {
          LoneDot(s);
          return Written([], true);
        }
        return Rejected;
      }
      NormalizeStep(done, l, Split(u.value.rest), size);
      rest := u.value.rest;
      if !empty {
        if left < 1 {
          return Rejected;
        }
        out, left := out + [DOT], left - 1;
        if left == 0 {
          return Aborted;
        }
      } else {
        empty := false;
      }
      var ok, e, left' := EscapeLabel(l, left);
      out, left, terminated := out + e, left', ok;
      done, fits := done + [l], fits && ok;
    }
    if all.Some? {
      assert done + [] == done;
    }
    return Written(out, terminated);
  }

  /** One space has a normal form of four bytes, so that it and its NUL do not fit a buffer of four. */
  lemma NormalFormGrows()
    ensures NormalForm([32]).Some? && |NormalForm([32]).value| == 4
  {
    var s: Text := [32];
    assert s[1..] == [] && Scan([]) == Some(Scanned([], []));
    assert Scan(s).value.content == s && Utf8Valid(s);
    assert Unescape(s, LABEL_MAX) == Some(Scanned(s, []));
    assert Split([]) == Some([]);
    assert Escape(s) == EscapeByte(32) + [];
  }
}
