/** Service names: an instance name, a type and a domain joined into one name, and taken apart again. */
module ServiceNames {
  import opened Bytes
  import opened Names

  // ---------- Validity ----------

  /** A label of a service type: an underscore and at least two bytes more. */
  predicate TypeLabel(l: Text) {
    |l| > 2 && l[0] == UNDERSCORE
  }

  predicate TypeLabels(ls: seq<Text>) {
    forall l :: l in ls ==> TypeLabel(l)
  }

  /** avahi_is_valid_service_type_generic */
  predicate ValidType(t: Text) {
    && IsCString(t) && 0 < |t| < DOMAIN_NAME_MAX && Split(t).Some?
    && TypeLabels(Split(t).value)
  }

  /** In bytes: a type has labels of three bytes or more alone, each of which starts with an underscore. */
  lemma TypesAre(t: Text)
    requires IsCString(t) && 0 < |t| <= 1013
    ensures ValidType(t) <==> Split(t).Some? && forall l :: l in Split(t).value ==> |l| >= 3 && l[0] == 95
  {
  }

  /** avahi_is_valid_service_name; the bytes of the name are not looked at. */
  predicate ValidInstance(n: Text) {
    IsCString(n) && 0 < |n| < LABEL_MAX
  }

  // ---------- Joining ----------

  function Joined(name: Option<Text>, ttype: Text, domain: Text): Text {
    (if name.Some? then Escape(name.value) + [DOT] else []) + ttype + [DOT] + domain
  }

  lemma {:induction false} EscapeLength(l: Text)
    ensures |Escape(l)| <= 4 * |l|
  {
    if l != [] {
      EscapeLength(l[1..]);
    }
  }

  /**
   avahi_service_name_join: the parts are checked, normalized and put together; snprintf cuts what does not fit. What
   comes out when a normal form does not fit its buffer is not specified here.
   */
  method ServiceNameJoin(size: nat, name: Option<Text>, ttype: Text, domain: Text) returns (r: Option<Text>)
    requires size > 0 && IsCString(ttype) && IsCString(domain) && (name.Some? ==> IsCString(name.value))
    ensures (name.Some? && !ValidInstance(name.value)) || !ValidType(ttype) || !ValidName(domain) ==> r.None?
    ensures (name.Some? ==> ValidInstance(name.value)) && ValidType(ttype) && ValidName(domain) &&
            |NormalForm(ttype).value| < DOMAIN_NAME_MAX && |NormalForm(domain).value| < DOMAIN_NAME_MAX ==>
              var whole := Joined(name, NormalForm(ttype).value, NormalForm(domain).value);
              r == Some(if |whole| < size then whole else whole[..size - 1])
  {
    if name.Some? && !(0 < |name.value| < LABEL_MAX) {
      return None;
    }
    if !ValidType(ttype) || !ValidName(domain) {
      return None;
    }
    var escaped: Text := [];
    if name.Some? {
      EscapeLength(name.value);
      var ok, out, left := EscapeLabel(name.value, 4 * LABEL_MAX);
      escaped := out + [DOT];
    }
    var t := NormalizeName(ttype, DOMAIN_NAME_MAX);
    var d := NormalizeName(domain, DOMAIN_NAME_MAX);
    if !t.Written? || !d.Written? {
      return None;
    }
    var whole := escaped + t.text + [DOT] + d.text;
    r := Some(if |whole| < size then whole else whole[..size - 1]);
  }

  // ---------- Splitting ----------

  /** The labels of a name, read until its end; here they may be empty. */
  function AnyLabels(p: Text): Option<seq<Text>>
    decreases |p|
  {
    if p == [] then Some([])
    else
      match Unescape(p, LABEL_MAX)
      case None => None
      case Some(x) => ConsLabel(x.content, AnyLabels(x.rest))
  }

  /** How many labels at the head of a list start with an underscore. */
  function TypeCount(ls: seq<Text>): (n: nat)
    ensures n <= |ls|
  {
    if ls == [] || ls[0] == [] || ls[0][0] != UNDERSCORE then 0 else 1 + TypeCount(ls[1..])
  }

  datatype Parts = Parts(name: Text, ttype: Text, domain: Text)

  /** The labels after the instance name, if one is asked for. */
  function Rest(ls: seq<Text>, named: bool): seq<Text> {
    if named && ls != [] then ls[1..] else ls
  }

  function PartsOf(ls: seq<Text>, named: bool): Parts {
    var rest := Rest(ls, named);
    Parts(if named && ls != [] then ls[0] else [], Join(rest[..TypeCount(rest)]), Join(rest[TypeCount(rest)..]))
  }

  datatype SplitOutcome =
    | Failed
    | NoMemory
    | Aborted
    | Done(parts: Parts)

  /** strlcpy */
  function Copied(s: Text, size: nat): Text
    requires size > 0
  {
    if |s| < size then s else s[..size - 1]
  }

  /** One label goes to the end of a list of labels, in a buffer that may be too small for it. */
  method AppendLabel(out: Text, left: nat, l: Text, empty: bool, ghost done: seq<Text>, ghost size: nat)
    returns (failure: Option<SplitOutcome>, more: Text, room: nat)
    requires left > 0 && left == size - |out| && out == Join(done) && (empty <==> done == [])
    ensures failure.None? <==> |Join(done + [l])| < size
    ensures failure.Some? ==> !failure.value.Done?
    ensures failure.None? ==> more == Join(done + [l]) && room == size - |more| && room > 0
  {
    JoinGrows(done, l, []);
    more, room := out, left;
    if !empty {
      more, room := more + [DOT], room - 1;
      if room == 0 {
        return Some(SplitOutcome.Aborted), more, room;
      }
    }
    var ok, e, after := EscapeLabel(l, room);
    more, room := more + e, after;
    failure := if ok then None else Some(NoMemory);
  }

  datatype Phase = NamePhase | TypePhase | DomainPhase

  /** What comes of the labels that are left, given those that were taken for the type and for the domain. */
  function Outlook(phase: Phase, name: Text, tl: seq<Text>, dl: seq<Text>, ls: seq<Text>): Parts {
    match phase
    case NamePhase => PartsOf(ls, true)
    case TypePhase => Parts(name, Join(tl + ls[..TypeCount(ls)]), Join(ls[TypeCount(ls)..]))
    case DomainPhase => Parts(name, Join(tl), Join(dl + ls))
  }

  predicate TakenForType(phase: Phase, l: Text) {
    phase.TypePhase? && l != [] && l[0] == UNDERSCORE
  }

  lemma OutlookName(l: Text, ls: seq<Text>)
    ensures Outlook(NamePhase, [], [], [], [l] + ls) == Outlook(TypePhase, l, [], [], ls)
  {
    assert ([l] + ls)[1..] == ls;
    assert [] + ls[..TypeCount(ls)] == ls[..TypeCount(ls)];
  }

  lemma OutlookType(name: Text, tl: seq<Text>, l: Text, ls: seq<Text>)
    requires l != [] && l[0] == UNDERSCORE
    ensures Outlook(TypePhase, name, tl, [], [l] + ls) == Outlook(TypePhase, name, tl + [l], [], ls)
    ensures |Join(tl + [l])| <= |Outlook(TypePhase, name, tl, [], [l] + ls).ttype|
  {
    var n := TypeCount(ls);
    assert ([l] + ls)[1..] == ls;
    assert TypeCount([l] + ls) == n + 1;
    assert ([l] + ls)[..n + 1] == [l] + ls[..n] && ([l] + ls)[n + 1..] == ls[n..];
    Assoc(tl, [l], ls[..n]);
    JoinGrows(tl, l, ls[..n]);
  }

  lemma OutlookDomain(phase: Phase, name: Text, tl: seq<Text>, dl: seq<Text>, l: Text, ls: seq<Text>)
    requires phase.DomainPhase? || (phase.TypePhase? && dl == [] && !(l != [] && l[0] == UNDERSCORE))
    ensures Outlook(phase, name, tl, dl, [l] + ls) == Outlook(DomainPhase, name, tl, dl + [l], ls)
    ensures |Join(dl + [l])| <= |Outlook(phase, name, tl, dl, [l] + ls).domain|
  {
    Assoc(dl, [l], ls);
    JoinGrows(dl, l, ls);
    if phase.TypePhase? {
      assert TypeCount([l] + ls) == 0;
      assert tl + ([l] + ls)[..0] == tl && ([l] + ls)[0..] == [l] + ls;
      assert dl + ([l] + ls) == [l] + ls;
    }
  }

  /** What split has gathered so far. */
  datatype Gathered = Gathered(phase: Phase, name: Text, ttype: Text, typeLeft: nat, domain: Text, domainLeft: nat)

  ghost predicate Gathering(g: Gathered, tl: seq<Text>, dl: seq<Text>, typeSize: nat, domainSize: nat) {
    && g.ttype == Join(tl) && g.typeLeft == typeSize - |g.ttype| && g.typeLeft > 0
    && g.domain == Join(dl) && g.domainLeft == domainSize - |g.domain| && g.domainLeft > 0
    && (!g.phase.DomainPhase? ==> dl == []) && (g.phase.NamePhase? ==> tl == [] && g.name == [])
  }

  /** One label is taken for the part whose turn it is. */
  method Take(g: Gathered, l: Text, typeEmpty: bool, domainEmpty: bool, ghost tl: seq<Text>, ghost dl: seq<Text>,
              ghost ls: seq<Text>, ghost typeSize: nat, ghost domainSize: nat)
    returns (failure: Option<SplitOutcome>, next: Gathered, ghost tl': seq<Text>, ghost dl': seq<Text>)
    requires Gathering(g, tl, dl, typeSize, domainSize) && (typeEmpty <==> tl == []) && (domainEmpty <==> dl == [])
    ensures failure.Some? ==> !failure.value.Done? &&
                              var q := Outlook(g.phase, g.name, tl, dl, [l] + ls);
                              |q.ttype| >= typeSize || |q.domain| >= domainSize
    ensures failure.None? ==> Gathering(next, tl', dl', typeSize, domainSize) &&
                              Outlook(next.phase, next.name, tl', dl', ls) == Outlook(g.phase, g.name, tl, dl, [l] + ls)
    ensures failure.None? ==> tl' == (if TakenForType(g.phase, l) then tl + [l] else tl)
    ensures failure.None? ==> dl' == (if g.phase.NamePhase? || TakenForType(g.phase, l) then dl else dl + [l])
  {
    hide Join, Outlook;
    failure, next, tl', dl' := None, g, tl, dl;
    if g.phase.NamePhase? {
      OutlookName(l, ls);
      next := g.(phase := TypePhase, name := l);
    } else if TakenForType(g.phase, l) {
      OutlookType(g.name, tl, l, ls);
      var more, room;
      failure, more, room := AppendLabel(g.ttype, g.typeLeft, l, typeEmpty, tl, typeSize);
      next, tl' := g.(ttype := more, typeLeft := room), tl + [l];
    } else {
      OutlookDomain(g.phase, g.name, tl, dl, l, ls);
      var more, room;
      failure, more, room := AppendLabel(g.domain, g.domainLeft, l, domainEmpty, dl, domainSize);
      next, dl' := g.(phase := DomainPhase, domain := more, domainLeft := room), dl + [l];
    }
  }

  /**
   avahi_service_name_split: the first label is the instance name, the labels with an underscore that follow are the
   type, and the rest is the domain; it succeeds exactly when every label can be read and type and domain fit.
   */
  method ServiceNameSplit(p: Text, named: bool, nameSize: nat, typeSize: nat, domainSize: nat) returns (r: SplitOutcome)
    requires nameSize > 0 && typeSize > 0 && domainSize > 0
    ensures AnyLabels(p).None? ==> !r.Done?
    ensures AnyLabels(p).Some? ==>
              var q := PartsOf(AnyLabels(p).value, named);
              && (r.Done? <==> |q.ttype| < typeSize && |q.domain| < domainSize)
              && (r.Done? ==> r.parts == Parts(Copied(q.name, nameSize), q.ttype, q.domain))
  {
    hide Outlook, PartsOf, Unescape;
    var rest := p;
    var g := Gathered(if named then NamePhase else TypePhase, [], [], typeSize, [], domainSize);
    var typeEmpty, domainEmpty := true, true;
    ghost var tl: seq<Text>, dl: seq<Text> := [], [];
    StartsOut(AnyLabels(p), named);
    while rest != []
      invariant Gathering(g, tl, dl, typeSize, domainSize) && (typeEmpty <==> tl == []) && (domainEmpty <==> dl == [])
      invariant AnyLabels(p).Some? <==> AnyLabels(rest).Some?
      invariant AnyLabels(p).Some? ==>
                  PartsOf(AnyLabels(p).value, named) == Outlook(g.phase, g.name, tl, dl, AnyLabels(rest).value)
      decreases |rest|
    {
      var u := UnescapeLabel(rest, LABEL_MAX);
      if u.None? {
        return Failed;
      }
      var l := u.value.content;
      ghost var ls := if AnyLabels(u.value.rest).Some? then AnyLabels(u.value.rest).value else [];
      var failure;
      var phase := g.phase;
      failure, g, tl, dl := Take(g, l, typeEmpty, domainEmpty, tl, dl, ls, typeSize, domainSize);
      if failure.Some? {
        return failure.value;
      }
      if TakenForType(phase, l) {
        typeEmpty := false;
      } else if !phase.NamePhase? {
        domainEmpty := false;
      }
      rest := u.value.rest;
    }
    EndsWith(g.phase, g.name, tl, dl);
    return Done(Parts(Copied(g.name, nameSize), g.ttype, g.domain));
  }

  lemma StartsOut(all: Option<seq<Text>>, named: bool)
    ensures all.Some? ==> PartsOf(all.value, named) ==
                          Outlook(if named then NamePhase else TypePhase, [], [], [], all.value)
    ensures Join([]) == []
  {
    if all.Some? {
      var n := TypeCount(all.value);
      assert [] + all.value[..n] == all.value[..n];
    }
  }

  lemma EndsWith(phase: Phase, name: Text, tl: seq<Text>, dl: seq<Text>)
    requires phase.NamePhase? ==> name == [] && tl == []
    requires !phase.DomainPhase? ==> dl == []
    ensures Outlook(phase, name, tl, dl, []) == Parts(name, Join(tl), Join(dl))
  {
    assert tl + [] == tl && dl + [] == dl;
  }

  // ---------- Round trip ----------

  /** The text of a list of labels, with a dot at its end if asked for. */
  function Dotted(ls: seq<Text>, dot: bool): Text {
    Join(ls) + if dot then [DOT] else []
  }

  lemma UnescapeDotted(ls: seq<Text>, dot: bool)
    requires ls != [] && 0 < |ls[0]| < LABEL_MAX
    ensures Dotted(ls, dot) != []
    ensures Unescape(Dotted(ls, dot), LABEL_MAX) ==
            if ValidLabel(ls[0]) then Some(Scanned(ls[0], if |ls| == 1 then [] else Dotted(ls[1..], dot))) else None
  {
    var tail: Text := if dot then [DOT] else [];
    var rest := if |ls| == 1 then tail else [DOT] + Dotted(ls[1..], dot);
    ScanEscape(ls[0], rest);
    if |ls| == 1 {
      assert Dotted(ls, dot) == Escape(ls[0]) + rest;
    } else {
      assert Join(ls) == Escape(ls[0]) + [DOT] + Join(ls[1..]);
      Assoc(Escape(ls[0]) + [DOT], Join(ls[1..]), tail);
      Assoc(Escape(ls[0]), [DOT], Dotted(ls[1..], dot));
      assert rest[1..] == Dotted(ls[1..], dot);
    }
  }

  /** Reading joined labels gives them back exactly when each of them is valid; a dot at the end makes no difference. */
  lemma {:induction false} AnyLabelsDotted(ls: seq<Text>, dot: bool)
    requires ShortLabels(ls) && ls != []
    ensures AnyLabels(Dotted(ls, dot)) == if ValidLabels(ls) then Some(ls) else None
  {
    assert ls[0] in ls;
    UnescapeDotted(ls, dot);
    hide Unescape, Dotted, ValidLabel;
    assert ls == [ls[0]] + ls[1..];
    if |ls| > 1 {
      AnyLabelsDotted(ls[1..], dot);
    } else {
      assert ls[1..] == [];
    }
  }

  /** The labels that a joined service name is made of. */
  function ServiceLabels(name: Option<Text>, tl: seq<Text>, dl: seq<Text>): seq<Text> {
    (if name.Some? then [name.value] else []) + tl + dl
  }

  lemma JoinedIsDotted(name: Option<Text>, tl: seq<Text>, dl: seq<Text>)
    requires tl != []
    ensures Joined(name, Join(tl), Join(dl)) == Dotted(ServiceLabels(name, tl, dl), dl == [])
  {
    var head := if name.Some? then [name.value] else [];
    if name.Some? {
      JoinConcat(head, tl);
    } else {
      assert head + tl == tl && [] + Join(tl) == Join(tl);
    }
    assert Join(head + tl) == (if name.Some? then Escape(name.value) + [DOT] else []) + Join(tl);
    JoinConcat(head + tl, dl);
    if dl == [] {
      assert Join(head + tl) + [DOT] + [] == Join(head + tl) + [DOT];
      assert head + tl + dl == head + tl;
    } else {
      assert Join(head + tl + dl) + [] == Join(head + tl + dl);
    }
  }

  lemma {:induction false} TypeCountOf(tl: seq<Text>, dl: seq<Text>)
    requires TypeLabels(tl)
    ensures TypeCount(tl + dl) == |tl| + TypeCount(dl)
  {
    if tl == [] {
      assert tl + dl == dl;
    } else {
      assert tl[0] in tl;
      TypeCountOf(tl[1..], dl);
      assert (tl + dl)[1..] == tl[1..] + dl;
    }
  }

  /** A domain that would be taken for a part of the type. */
  predicate StartsLikeType(dl: seq<Text>) {
    dl != [] && dl[0] != [] && dl[0][0] == UNDERSCORE
  }

  /** What comes of the labels of type and domain. */
  lemma PartsOfBoth(name: Text, named: bool, tl: seq<Text>, dl: seq<Text>)
    requires tl != [] && ValidLabels(tl) && ValidLabels(dl) && TypeLabels(tl)
    requires named || name == []
    ensures var q := PartsOf((if named then [name] else []) + tl + dl, named);
            q.name == name && (q == Parts(name, Join(tl), Join(dl)) <==> !StartsLikeType(dl))
  {
    var n := TypeCount(dl);
    TypeCountOf(tl, dl);
    hide Join, TypeCount, ValidLabels, TypeLabels, Rest, StartsLikeType;
    RestOfAll(name, named, tl + dl);
    Assoc(if named then [name] else [], tl, dl);
    CutAfter(tl, dl, n);
    CountOfNone(dl);
    JoinedTypes(tl, dl, n);
  }

  /** Labels of the domain that are taken for the type make a difference. */
  lemma JoinedTypes(tl: seq<Text>, dl: seq<Text>, n: nat)
    requires ValidLabels(tl) && ValidLabels(dl) && n <= |dl|
    ensures n > 0 ==> Join(tl + dl[..n]) != Join(tl)
  {
    if n > 0 {
      ValidPrefix(dl, n);
      MoreLabels(tl, dl[..n]);
    }
  }

  lemma RestOfAll(name: Text, named: bool, ls: seq<Text>)
    requires named || name == []
    ensures var all := (if named then [name] else []) + ls;
            Rest(all, named) == ls && (named ==> all != [] && all[0] == name)
  {
    var all := (if named then [name] else []) + ls;
    if named {
      assert all[1..] == ls;
    } else {
      assert all == ls;
    }
  }

  lemma CutAfter(tl: seq<Text>, dl: seq<Text>, n: nat)
    requires n <= |dl|
    ensures (tl + dl)[..|tl| + n] == tl + dl[..n] && (tl + dl)[|tl| + n..] == dl[n..]
    ensures n == 0 ==> tl + dl[..n] == tl && dl[n..] == dl
  {
  }

  lemma ValidPrefix(dl: seq<Text>, n: nat)
    requires ValidLabels(dl) && n <= |dl|
    ensures ValidLabels(dl[..n])
  {
  }

  lemma CountOfNone(dl: seq<Text>)
    ensures TypeCount(dl) > 0 <==> StartsLikeType(dl)
  {
  }

  /** More labels never join to the same text. */
  lemma MoreLabels(a: seq<Text>, b: seq<Text>)
    requires ValidLabels(a) && ValidLabels(b) && b != []
    ensures Join(a + b) != Join(a)
  {
    SplitJoin(a + b);
    SplitJoin(a);
    assert |a + b| > |a|;
  }

  /**
   Splitting a joined service name: it can be read exactly if the instance name is UTF-8, and gives back the instance
   name and the normalized type and domain exactly if the first label of the domain has no underscore in front.
   */
  lemma SplitsIntoParts(name: Option<Text>, ttype: Text, domain: Text)
    requires (name.Some? ==> ValidInstance(name.value)) && ValidType(ttype) && ValidName(domain)
    ensures var t, d := NormalForm(ttype).value, NormalForm(domain).value;
            var all := AnyLabels(Joined(name, t, d));
            && (all.Some? <==> name.Some? ==> Utf8Valid(name.value))
            && (all.Some? ==>
                  (PartsOf(all.value, name.Some?) == Parts(if name.Some? then name.value else [], t, d)
                   <==> !StartsLikeType(Labels(domain).value)))
  {
    var tl, dl := Split(ttype).value, Labels(domain).value;
    assert ttype != [DOT];
    SplitJoin(tl);
    SplitJoin(dl);
    JoinedIsDotted(name, tl, dl);
    var ls := ServiceLabels(name, tl, dl);
    forall l | l in ls
      ensures 0 < |l| < LABEL_MAX
      ensures ValidLabel(l) || l == name.value
    {
      assert l in tl || l in dl || l == name.value;
    }
    AnyLabelsDotted(ls, dl == []);
    if name.Some? {
      assert ls[0] == name.value;
      assert ValidLabels(ls) <==> Utf8Valid(name.value);
    } else {
      assert ValidLabels(ls);
    }
    PartsOfBoth(if name.Some? then name.value else [], name.Some?, tl, dl);
  }

  /** The type "_aa" in the domain "_": all of it comes back as the type. */
  lemma DomainTakenForType(ttype: Text, domain: Text)
    requires ttype == [95, 97, 97] && domain == [95]
    ensures ValidType(ttype) && ValidName(domain)
    ensures var t, d := NormalForm(ttype).value, NormalForm(domain).value;
            var all := AnyLabels(Joined(None, t, d));
            all.Some? && PartsOf(all.value, false) != Parts([], t, d)
  {
    var tl: seq<Text>, dl: seq<Text> := [ttype], [domain];
    assert domain[1..] == [] && Escape([]) == [];
    assert Escape(domain) == [95];
    assert ttype[1..] == [97, 97] && [97, 97][1..] == [97];
    assert [97][1..] == [];
    assert Escape([97]) == [97];
    assert Escape([97, 97]) == [97] + Escape([97]);
    assert Escape(ttype) == [95] + Escape([97, 97]);
    assert Utf8Valid([97]) && Utf8Valid([97, 97]) && Utf8Valid([]);
    assert ValidLabel(ttype) && ValidLabel(domain);
    SplitJoin(tl);
    SplitJoin(dl);
    assert Join(tl) == ttype && Join(dl) == domain;
    hide Escape, Scan, Unescape, Utf8Valid;
    SplitsIntoParts(None, ttype, domain);
  }
}
