/**
 TXT string lists. A list is kept with its last added string first; the wire has them in the
 order they were added.
 */
module StringLists {
  import opened Bytes

  const STRING_MAX := 255

  function Clip(t: Text): (r: Text)
    ensures |r| <= STRING_MAX && r <= t
  {
    if |t| > STRING_MAX then t[..STRING_MAX] else t
  }

  /** One length-prefixed string; an empty one is skipped. */
  function Chunk(t: Text): Text {
    if t == [] then [] else [|Clip(t)|] + Clip(t)
  }

  function Chunks(l: seq<Text>): Text {
    if l == [] then [] else Chunks(l[1..]) + Chunk(l[0])
  }

  /** avahi_string_list_serialize: a list without content becomes a single NUL byte. */
  function Serialized(l: seq<Text>): (r: Text)
    ensures r != []
  {
    if Chunks(l) == [] then [0] else Chunks(l)
  }

  /** What survives a trip over the wire: empty strings vanish, long ones are cut. */
  function Kept(l: seq<Text>): seq<Text> {
    if l == [] then []
    else if l[0] == [] then Kept(l[1..])
    else [Clip(l[0])] + Kept(l[1..])
  }

  predicate ValidStrings(l: seq<Text>) {
    forall t :: t in l ==> 0 < |t| <= STRING_MAX
  }

  function Parsed(data: Text, found: seq<Text>): (r: Option<seq<Text>>)
    ensures r.Some? && ValidStrings(found) ==> ValidStrings(r.value)
    decreases |data|
  {
    if data == [] then Some(found)
    else
      var k := data[0];
      if k > |data| - 1 then None
      else Parsed(data[1 + k..], if k > 0 then [data[1..1 + k]] + found else found)
  }

  /** avahi_string_list_parse */
  method Parse(data: Text) returns (r: Option<seq<Text>>)
    ensures r == Parsed(data, [])
  {
    var pos, list: seq<Text> := 0, [];
    assert data[0..] == data;
    while pos < |data|
      invariant 0 <= pos <= |data|
      invariant Parsed(data, []) == Parsed(data[pos..], list)
    {
      ghost var here := data[pos..];
      var k := data[pos];
      pos := pos + 1;
      if k > |data| - pos {
        return None;
      }
      assert here[1..1 + k] == data[pos..pos + k];
      assert here[1 + k..] == data[pos + k..];
      if k > 0 {
        list := [data[pos..pos + k]] + list;
      }
      pos := pos + k;
    }
    return Some(list);
  }

  lemma ParseChunk(t: Text, more: Text, found: seq<Text>)
    ensures Parsed(Chunk(t) + more, found) == Parsed(more, if t == [] then found else [Clip(t)] + found)
  {
    var d := Chunk(t) + more;
    if t == [] {
      assert d == more;
    } else {
      assert d[1 + d[0]..] == more;
      assert d[1..1 + d[0]] == Clip(t);
    }
  }

  lemma {:induction false} ParseChunks(l: seq<Text>, more: Text, found: seq<Text>)
    ensures Parsed(Chunks(l) + more, found) == Parsed(more, Kept(l) + found)
  {
    if l == [] {
      assert Chunks(l) + more == more;
      assert Kept(l) + found == found;
    } else {
      Assoc(Chunks(l[1..]), Chunk(l[0]), more);
      ParseChunks(l[1..], Chunk(l[0]) + more, found);
      ParseChunk(l[0], more, Kept(l[1..]) + found);
      Assoc([Clip(l[0])], Kept(l[1..]), found);
    }
  }

  /** Parsing what was serialized gives the kept strings back, in list order. */
  lemma ParseSerialized(l: seq<Text>)
    ensures Parsed(Serialized(l), []) == Some(Kept(l))
  {
    ParseChunks(l, [], []);
    assert Chunks(l) + [] == Chunks(l) && Kept(l) + [] == Kept(l);
    if Chunks(l) == [] {
      assert Serialized(l)[1..] == [];
    }
  }

  lemma {:induction false} ValidStringsAreKept(l: seq<Text>)
    requires ValidStrings(l)
    ensures Kept(l) == l
  {
    if l != [] {
      assert l[0] in l;
      ValidStringsAreKept(l[1..]);
    }
  }

  // ---------- The linked form ----------

  class Node {
    const text: Text
    var next: Node?

    constructor (text: Text, next: Node?)
      ensures this.text == text && this.next == next
    {
      this.text, this.next := text, next;
    }
  }

  predicate Distinct(nodes: seq<Node>) {
    forall i, j :: 0 <= i < j < |nodes| ==> nodes[i] != nodes[j]
  }

  function At(nodes: seq<Node>, i: int): Node? {
    if 0 <= i < |nodes| then nodes[i] else null
  }

  /** `head` starts a list that visits exactly `nodes`. */
  ghost predicate Chain(head: Node?, nodes: seq<Node>)
    reads nodes
  {
    && Distinct(nodes)
    && head == At(nodes, 0)
    && forall i {:trigger nodes[i].next} :: 0 <= i < |nodes| ==> nodes[i].next == At(nodes, i + 1)
  }

  function Backwards<T>(s: seq<T>): seq<T> {
    seq(|s|, i requires 0 <= i < |s| => s[|s| - 1 - i])
  }

  function Texts(nodes: seq<Node>): seq<Text> {
    seq(|nodes|, i requires 0 <= i < |nodes| => nodes[i].text)
  }

  /** The same nodes linked the other way round. */
  ghost predicate BackLinked(last: Node?, nodes: seq<Node>)
    reads nodes
  {
    last == At(nodes, |nodes| - 1) && forall i {:trigger nodes[i].next} :: 0 <= i < |nodes| ==> nodes[i].next == At(nodes, i - 1)
  }

  /** avahi_string_list_reverse turns every link around in place. */
  method Reverse(l: Node?, ghost nodes: seq<Node>) returns (r: Node?)
    requires Chain(l, nodes)
    modifies nodes
    ensures Chain(r, Backwards(nodes))
  {
    var rest := l;
    r := null;
    ghost var i := 0;
    while rest != null
      invariant 0 <= i <= |nodes| && rest == At(nodes, i) && r == At(nodes, i - 1)
      invariant forall k {:trigger nodes[k].next} :: 0 <= k < i ==> nodes[k].next == At(nodes, k - 1)
      invariant forall k {:trigger nodes[k].next} :: i <= k < |nodes| ==> nodes[k].next == At(nodes, k + 1)
      decreases |nodes| - i
    {
      var n := rest.next;
      rest.next := r;
      r := rest;
      rest := n;
      i := i + 1;
    }
  }

  lemma BackwardsIsBackLinked(r: Node?, nodes: seq<Node>)
    requires Chain(r, Backwards(nodes))
    ensures BackLinked(r, nodes)
  {
    var back := Backwards(nodes);
    forall i | 0 <= i < |nodes|
      ensures nodes[i].next == At(nodes, i - 1)
    {
      assert back[|nodes| - 1 - i] == nodes[i];
    }
  }

  lemma BackwardsTwice(nodes: seq<Node>)
    ensures Backwards(Backwards(nodes)) == nodes
  {
  }

  /** What is written of one string when `size` bytes are left. */
  function Cut(t: Text, size: nat): (r: Text)
    requires size > 1
    ensures |r| <= size
  {
    var c := if |Clip(t)| > size - 1 then size - 1 else |Clip(t)|;
    if t == [] then [] else [c] + t[..c]
  }

  /** The writing loop into `size` bytes: the string added first comes first, cut where the room ends. */
  function Filled(l: seq<Text>, size: nat): (r: Text)
    ensures |r| <= size
  {
    if size <= 1 || l == [] then []
    else Cut(l[|l| - 1], size) + Filled(l[..|l| - 1], size - |Cut(l[|l| - 1], size)|)
  }

  /** avahi_string_list_serialize into a buffer of any size. */
  function SerializedInto(l: seq<Text>, size: nat): (r: Text)
    ensures |r| <= size
  {
    if Filled(l, size) == [] && size > 0 then [0] else Filled(l, size)
  }

  lemma {:induction false} ChunksFirst(l: seq<Text>)
    requires l != []
    ensures Chunks(l) == Chunk(l[|l| - 1]) + Chunks(l[..|l| - 1])
  {
    if |l| > 1 {
      ChunksFirst(l[1..]);
      assert l[1..][..|l| - 2] == l[..|l| - 1][1..];
      Assoc(Chunk(l[|l| - 1]), Chunks(l[1..|l| - 1]), Chunk(l[0]));
      assert l[1..|l| - 1] == l[..|l| - 1][1..];
    } else {
      assert l[1..] == [] == l[..0];
      assert Chunk(l[0]) + [] == Chunk(l[0]) == [] + Chunk(l[0]);
    }
  }

  lemma {:induction false} NoSingleByte(l: seq<Text>)
    ensures |Chunks(l)| != 1
  {
    if l != [] {
      NoSingleByte(l[1..]);
    }
  }

  lemma CutIsChunk(t: Text, size: nat)
    requires |Chunk(t)| <= size && size > 1
    ensures Cut(t, size) == Chunk(t)
  {
  }

  lemma {:induction false} FilledWhole(l: seq<Text>, size: nat)
    requires |Chunks(l)| <= size
    ensures Filled(l, size) == Chunks(l)
  {
    hide Chunks, Chunk, Cut;
    if l == [] {
      assert Chunks(l) == [] by { NoChunks(); }
    } else if size <= 1 {
      NoSingleByte(l);
    } else {
      var t := l[|l| - 1];
      ChunksFirst(l);
      CutIsChunk(t, size);
      FilledWhole(l[..|l| - 1], size - |Chunk(t)|);
    }
  }

  lemma NoChunks()
    ensures Chunks([]) == []
  {
  }

  /** A buffer of the size the sizing pass returned, or a longer one, takes the whole list. */
  lemma WholeListFits(l: seq<Text>, size: nat)
    requires |Serialized(l)| <= size
    ensures SerializedInto(l, size) == Serialized(l)
  {
    FilledWhole(l, size);
  }

  lemma CutParses(t: Text, size: nat, more: Text, found: seq<Text>) returns (now: seq<Text>)
    requires size > 1
    ensures Parsed(Cut(t, size) + more, found) == Parsed(more, now)
  {
    var cut := Cut(t, size);
    now := if t == [] then found else [cut[1..]] + found;
    var d := cut + more;
    if t == [] {
      assert d == more;
    } else {
      assert d[1..1 + d[0]] == cut[1..] && d[1 + d[0]..] == more;
    }
  }

  lemma {:induction false} FilledParses(l: seq<Text>, size: nat, found: seq<Text>)
    ensures Parsed(Filled(l, size), found).Some?
  {
    hide Cut;
    if size > 1 && l != [] {
      var t, rest := l[|l| - 1], l[..|l| - 1];
      var now := CutParses(t, size, Filled(rest, size - |Cut(t, size)|), found);
      FilledParses(rest, size - |Cut(t, size)|, now);
    }
  }

  /** A shorter buffer cuts the list, but what is in it can still be read. */
  lemma CutListParses(l: seq<Text>, size: nat)
    requires size > 0
    ensures Parsed(SerializedInto(l, size), []).Some?
  {
    FilledParses(l, size, []);
    assert [0][1..] == [];
  }

  lemma FilledStep(l: seq<Text>, k: nat, size: nat)
    requires k < |l| && size > 1
    ensures Filled(l[..k + 1], size) == Cut(l[k], size) + Filled(l[..k], size - |Cut(l[k], size)|)
  {
    hide Cut;
    var upTo := l[..k + 1];
    assert |upTo| == k + 1 && upTo[k] == l[k] && upTo[..k] == l[..k];
  }

  lemma CutTo(t: Text, size: nat, c: nat)
    requires size > 1 && t != [] && c == if |Clip(t)| > size - 1 then size - 1 else |Clip(t)|
    ensures Cut(t, size) == [c] + t[..c]
  {
  }

  lemma CutNothing(size: nat)
    requires size > 1
    ensures Cut([], size) == []
  {
  }

  lemma NothingFilled(l: seq<Text>, size: nat)
    requires l == [] || size <= 1
    ensures Filled(l, size) == []
  {
  }

  /** The writing loop, over the reversed list. */
  method WriteStrings(r: Node?, ghost nodes: seq<Node>, size: nat) returns (data: Text)
    requires BackLinked(r, nodes)
    ensures data == Filled(Texts(nodes), size)
  {
    hide Filled, Cut;
    ghost var texts := Texts(nodes);
    var n, left := r, size;
    data := [];
    ghost var k := |nodes|;
    assert texts[..k] == texts;
    while left > 1 && n != null
      invariant 0 <= k <= |nodes| && n == At(nodes, k - 1) && left >= 0
      invariant data + Filled(texts[..k], left) == Filled(texts, size)
      decreases k
    {
      k := k - 1;
      var t := n.text;
      FilledStep(texts, k, left);
      ghost var cut := Cut(t, left);
      Assoc(data, cut, Filled(texts[..k], left - |cut|));
      CutNothing(left);
      if |t| != 0 {
        var c := if |t| > STRING_MAX then STRING_MAX else |t|;
        if c > left - 1 {
          c := left - 1;
        }
        CutTo(t, left, c);
        data := data + ([c] + t[..c]);
        left := left - (1 + c);
      }
      n := n.next;
    }
    NothingFilled(texts[..k], left);
    assert data + [] == data;
  }

  /** The list is reversed, written and reversed back, so it ends as it began. */
  method Serialize(l: Node?, ghost nodes: seq<Node>, size: nat) returns (data: Text)
    requires Chain(l, nodes)
    modifies nodes
    ensures data == SerializedInto(Texts(nodes), size)
    ensures Chain(l, nodes)
  {
    var r := Reverse(l, nodes);
    BackwardsIsBackLinked(r, nodes);
    data := WriteStrings(r, nodes, size);
    var again := Reverse(r, Backwards(nodes));
    BackwardsTwice(nodes);
    if |data| == 0 && size > 0 {
      data := [0];
    }
  }
}
