/** What relocations ask for, said by chains of references, and that this is what recording marks. */
module BtfgenAsks {
  import opened Btf
  import opened BtfDepth
  import opened BtfgenMark
  import opened Options

  // ---------------------------------------------------------------- chains of references

  /** Modifiers and typedefs, which stand for another type. */
  predicate IsAlias(kind: RefKind) { kind in {Const, Restrict, Volatile, Typedef} }

  /** A type record of a kind that can be marked; matching also accepts forward declarations. */
  predicate Markable(t: BtfType, mode: Mode) {
    !t.DataSec? && (t.Ref? ==> t.refKind == Ptr || IsAlias(t.refKind) || (t.refKind == Fwd && mode.Match?))
  }

  /**
   * A type needs the types that it is made of. Behind a pointer they are needed when pointers are followed, and by
   * matching, which does not go on from structures there. Matching needs the members of other structures.
   */
  predicate Leads(t: BtfType, mode: Mode, to: Node) {
    match t
    case Ref(kind, _, typ) =>
      to.id == typ && if kind == Ptr then to.mode == (if mode.Match? then Match(true) else FollowPtr) && mode != NoPtr
                      else IsAlias(kind) && to.mode == mode
    case Array(elem, index, _) => (to.id == elem || to.id == index) && to.mode == Within(mode)
    case FuncProto(ret, params) =>
      to.mode == Within(mode) && (to.id == ret || exists k :: 0 <= k < |params| && params[k].typ == to.id)
    case Composite(_, _, _, members) =>
      mode == Match(false) && to.mode == mode && exists k :: 0 <= k < |members| && members[k].typ == to.id
    case _ => false
  }

  /** Arrays and prototypes are complete types: what they are made of is not behind a pointer any more. */
  function Within(mode: Mode): Mode { if mode == Match(true) then Match(false) else mode }

  ghost predicate IsChain(btf: Types, c: seq<Node>) {
    && |c| > 0 && (forall i :: 0 <= i < |c| ==> 0 < c[i].id < |btf|)
    && forall i :: 0 < i < |c| ==> Leads(btf[c[i - 1].id], c[i - 1].mode, c[i])
  }

  /** A chain leads from `root` to `n`. */
  ghost predicate Needs(btf: Types, root: Node, n: Node) {
    exists c :: IsChain(btf, c) && c[0] == root && c[|c| - 1] == n
  }

  lemma FollowedIff(t: BtfType, mode: Mode, to: Node)
    requires t.Ref? && t.refKind == Fwd ==> t.typ == 0
    requires to.id != 0
    ensures to in Followed(t, mode) <==> Leads(t, mode, to)
  {
    match t
    case Composite(_, _, _, members) =>
      if k :| (0 <= k < |members| && members[k].typ == to.id && Leads(t, mode, to)) {
        assert Followed(t, mode)[k] == to;
      }
    case FuncProto(ret, params) =>
      if Leads(t, mode, to) && to.id != ret {
        var k :| 0 <= k < |params| && params[k].typ == to.id;
        assert Followed(t, mode)[k + 1] == to;
      }
      assert Leads(t, mode, Node(ret, Within(mode))) ==> Followed(t, mode)[0] == Node(ret, Within(mode));
    case Array(elem, index, _) =>
      assert Followed(t, mode)[0] == Node(elem, Within(mode)) && Followed(t, mode)[1] == Node(index, Within(mode));
    case _ =>
  }

  // ---------------------------------------------------------------- chains and recursion

  lemma {:induction false} InSome(btf: Types, s: seq<Node>, d: nat, m: Node) returns (k: nat)
    requires Valid(btf) && (forall i :: 0 <= i < |s| ==> s[i].id < |btf|) && m in ReachAll(btf, s, d)
    ensures k < |s| && m in Reach(btf, s[k], d)
    decreases |s|
  {
    if m in Reach(btf, s[|s| - 1], d) {
      k := |s| - 1;
    } else {
      k := InSome(btf, s[..|s| - 1], d, m);
    }
  }

  lemma ChainCons(btf: Types, n: Node, c: seq<Node>)
    requires Valid(btf) && 0 < n.id < |btf| && IsChain(btf, c) && c[0] in Next(btf, n)
    ensures IsChain(btf, [n] + c)
  {
    FollowedIff(btf[n.id], n.mode, c[0]);
    var longer := [n] + c;
    forall i | 0 < i < |longer| ensures Leads(btf[longer[i - 1].id], longer[i - 1].mode, longer[i]) {
      if i > 1 {
        assert Leads(btf[c[i - 1 - 1].id], c[i - 1 - 1].mode, c[i - 1]);
      }
    }
  }

  lemma {:induction false} ReachChain(btf: Types, n: Node, d: nat, m: Node) returns (c: seq<Node>)
    requires Valid(btf) && n.id < |btf| && m in Reach(btf, n, d)
    ensures IsChain(btf, c) && c[0] == n && c[|c| - 1] == m
    decreases d
  {
    if m == n {
      c := [n];
    } else {
      var k := InSome(btf, Next(btf, n), d - 1, m);
      var rest := ReachChain(btf, Next(btf, n)[k], d - 1, m);
      ChainCons(btf, n, rest);
      c := [n] + rest;
    }
  }

  lemma {:induction false} ChainStays(btf: Types, seen: set<Node>, c: seq<Node>, i: nat)
    requires Valid(btf) && Closed(btf, seen) && IsChain(btf, c) && c[0] in seen && i < |c|
    ensures c[i] in seen
  {
    if i > 0 {
      ChainStays(btf, seen, c, i - 1);
      assert Leads(btf[c[i - 1].id], c[i - 1].mode, c[i]);
      FollowedIff(btf[c[i - 1].id], c[i - 1].mode, c[i]);
      var k :| 0 <= k < |Next(btf, c[i - 1])| && Next(btf, c[i - 1])[k] == c[i];
    }
  }

  /** What a successful marking visits is what chains lead to. */
  lemma ReachIffNeeded(btf: Types, root: Node, d: nat, n: Node)
    requires Valid(btf) && root.id < |btf| && Visit(btf, root, d) == Some(true)
    ensures n in Reach(btf, root, d) <==> Needs(btf, root, n)
  {
    if n in Reach(btf, root, d) {
      var c := ReachChain(btf, root, d, n);
    }
    if c :| (IsChain(btf, c) && c[0] == root && c[|c| - 1] == n) {
      VisitTrue(btf, root, d);
      ReachClosed(btf, root, d);
      ChainStays(btf, Reach(btf, root, d), c, |c| - 1);
    }
  }

  lemma {:induction false} RefusedChain(btf: Types, n: Node, d: nat) returns (c: seq<Node>)
    requires Valid(btf) && n.id < |btf| && Visit(btf, n, d) == Some(false)
    ensures IsChain(btf, c) && c[0] == n && var m := c[|c| - 1]; !Markable(btf[m.id], m.mode)
    decreases d, 0
  {
    if !Supported(btf[n.id], n.mode) {
      c := [n];
    } else {
      var rest := RefusedAmong(btf, Next(btf, n), d - 1);
      ChainCons(btf, n, rest);
      c := [n] + rest;
    }
  }

  lemma {:induction false} RefusedAmong(btf: Types, s: seq<Node>, d: nat) returns (c: seq<Node>)
    requires Valid(btf) && (forall i :: 0 <= i < |s| ==> s[i].id < |btf|) && VisitAll(btf, s, d) == Some(false)
    ensures IsChain(btf, c) && c[0] in s && var m := c[|c| - 1]; !Markable(btf[m.id], m.mode)
    decreases d, |s| + 1
  {
    if Visit(btf, s[0], d) == Some(false) {
      c := RefusedChain(btf, s[0], d);
    } else {
      c := RefusedAmong(btf, s[1..], d);
    }
  }

  /** Everything that is needed for the root can be marked. */
  ghost predicate AllMarkable(btf: Types, root: Node) {
    forall n :: Needs(btf, root, n) ==> n.id < |btf| && Markable(btf[n.id], n.mode)
  }

  /** Marking that returns succeeds exactly when everything needed is of a kind that can be marked. */
  lemma SucceedsIff(btf: Types, root: Node, d: nat)
    requires Valid(btf) && root.id < |btf| && Visit(btf, root, d).Some?
    ensures Visit(btf, root, d) == Some(true) <==> AllMarkable(btf, root)
  {
    if Visit(btf, root, d) == Some(true) {
      VisitTrue(btf, root, d);
      forall n | Needs(btf, root, n) ensures n.id < |btf| && Markable(btf[n.id], n.mode) {
        ReachIffNeeded(btf, root, d, n);
      }
    } else {
      assert !Visit(btf, root, d).value;
      var c := RefusedChain(btf, root, d);
      assert Needs(btf, root, c[|c| - 1]);
    }
  }

  // ---------------------------------------------------------------- access paths

  /** Type `a` is type `b` behind modifiers and typedefs, and type `b` is none itself. */
  ghost predicate StandsFor(btf: Types, a: nat, b: nat) {
    exists c :: IsAliasChain(btf, c) && c[0] == a && c[|c| - 1] == b
  }

  predicate IsAliasOf(t: BtfType, to: nat) { t.Ref? && (IsAlias(t.refKind) || t.refKind == TypeTag) && t.typ == to }

  ghost predicate IsAliasChain(btf: Types, c: seq<nat>) {
    && |c| > 0 && (forall i :: 0 <= i < |c| ==> c[i] < |btf|)
    && (forall i :: 0 < i < |c| ==> IsAliasOf(btf[c[i - 1]], c[i]))
    && var last := btf[c[|c| - 1]]; !(last.Ref? && IsAliasOf(last, last.typ))
  }

  lemma {:induction false} SameAliases(btf: Types, b: seq<nat>, c: seq<nat>, i: nat)
    requires IsAliasChain(btf, b) && IsAliasChain(btf, c) && b[0] == c[0] && i < |b|
    ensures i < |c| && b[i] == c[i]
  {
    if i > 0 {
      SameAliases(btf, b, c, i - 1);
      assert IsAliasOf(btf[b[i - 1]], b[i]);
      if i < |c| {
        assert IsAliasOf(btf[c[i - 1]], c[i]);
      }
    }
  }

  lemma StandsForOne(btf: Types, a: nat, b: nat, b': nat)
    requires StandsFor(btf, a, b) && StandsFor(btf, a, b')
    ensures b == b'
  {
    var c :| IsAliasChain(btf, c) && c[0] == a && c[|c| - 1] == b;
    var c' :| IsAliasChain(btf, c') && c'[0] == a && c'[|c'| - 1] == b';
    SameAliases(btf, c, c', |c| - 1);
    SameAliases(btf, c', c, |c'| - 1);
  }

  /** Entry `pos` of an array or composite type. */
  predicate Enters(btf: Types, hop: Hop, pos: nat) {
    && hop.at < |btf| && hop.pos == pos
    && match btf[hop.at]
       case Array(elem, _, _) => hop.next == elem
       case Composite(_, _, _, members) => pos < |members| && hop.next == members[pos].typ
       case _ => false
  }

  /** The hops that entries `raw` select from type `id` on, one after the other. */
  ghost predicate IsAccess(btf: Types, id: nat, raw: seq<nat>, hops: seq<Hop>)
    decreases |raw|
  {
    if raw == [] then hops == []
    else
      && hops != [] && StandsFor(btf, id, hops[0].at) && Enters(btf, hops[0], raw[0])
      && IsAccess(btf, hops[0].next, raw[1..], hops[1..])
  }

  lemma {:induction false} AccessOne(btf: Types, id: nat, raw: seq<nat>, hops: seq<Hop>, hops': seq<Hop>)
    requires IsAccess(btf, id, raw, hops) && IsAccess(btf, id, raw, hops')
    ensures hops == hops'
    decreases |raw|
  {
    if raw != [] {
      StandsForOne(btf, id, hops[0].at, hops'[0].at);
      AccessOne(btf, hops[0].next, raw[1..], hops[1..], hops'[1..]);
      assert hops == [hops[0]] + hops[1..] && hops' == [hops'[0]] + hops'[1..];
    }
  }

  /** Skipping modifiers and typedefs of a type that was marked leads to what it stands for, which was marked too. */
  lemma {:induction false} SkipStands(btf: Types, id: nat, d: nat) returns (c: seq<nat>)
    requires Valid(btf) && id < |btf| && Visit(btf, Node(id, NoPtr), d) == Some(true)
    ensures IsAliasChain(btf, c) && c[0] == id && c[|c| - 1] == SkipMods(btf, id, d)
    ensures var at := SkipMods(btf, id, d); at < |btf| && Visit(btf, Node(at, NoPtr), d) == Some(true)
    decreases d
  {
    if d > 0 && IsModOrTypedef(btf[id]) {
      var s := Next(btf, Node(id, NoPtr));
      assert s == [Node(btf[id].typ, NoPtr)];
      var rest := SkipStands(btf, btf[id].typ, d - 1);
      VisitMore(btf, Node(SkipMods(btf, id, d), NoPtr), d - 1, d);
      c := [id] + rest;
      forall i | 0 < i < |c| ensures IsAliasOf(btf[c[i - 1]], c[i]) {
        assert i > 1 ==> IsAliasOf(btf[rest[i - 1 - 1]], rest[i - 1]);
      }
    } else {
      c := [id];
    }
  }

  /** The path that is walked is the one that the entries select, and the other way round. */
  lemma {:induction false} WalkIsAccess(btf: Types, id: nat, raw: seq<nat>, i: nat, d: nat, hops: seq<Hop>)
    requires Valid(btf) && id < |btf| && Visit(btf, Node(id, NoPtr), d) == Some(true) && i <= |raw|
    requires Walk(btf, id, raw, i, d) == Some(hops) && WalkAccepted(btf, Some(hops), d)
    ensures IsAccess(btf, id, raw[i..], hops)
    decreases |raw| - i
  {
    if i < |raw| {
      var c := SkipStands(btf, id, d);
      var at := SkipMods(btf, id, d);
      var hop := hops[0];
      assert hop == Hop(at, raw[i], hop.next) && Enters(btf, hop, raw[i]);
      var rest := Walk(btf, hop.next, raw, i + 1, d);
      assert Onward(hop, rest) == Some(hops) && hops[1..] == rest.value;
      assert HopAccepted(btf, hop, d);
      NextMarkable(btf, hop, d);
      assert forall k :: 0 <= k < |rest.value| ==> rest.value[k] == hops[k + 1];
      WalkIsAccess(btf, hop.next, raw, i + 1, d, rest.value);
      assert raw[i..][1..] == raw[i + 1..];
    }
  }

  lemma NextMarkable(btf: Types, hop: Hop, d: nat)
    requires Valid(btf) && hop.at < |btf| && hop.next < |btf| && Enters(btf, hop, hop.pos)
    requires Visit(btf, Node(hop.at, NoPtr), d) == Some(true) && HopAccepted(btf, hop, d)
    ensures Visit(btf, Node(hop.next, NoPtr), d) == Some(true)
  {
    if btf[hop.at].Array? {
      var s := Next(btf, Node(hop.at, NoPtr));
      assert s[0] == Node(hop.next, NoPtr);
      VisitMore(btf, s[0], d - 1, d);
    }
  }

  // ---------------------------------------------------------------- relocations

  /** Step `h` of the access path of a field relocation. */
  ghost predicate OnAccess(btf: Types, spec: TargSpec, hops: seq<Hop>, h: int) {
    && spec.rawSpec != [] && IsAccess(btf, spec.rootTypeId, spec.rawSpec[1..], hops)
    && 0 <= h < |hops| && hops[h].at < |btf| && btf[hops[h].at].Composite?
  }

  /**
   * The types that a relocation asks for. About a type as a whole, pointers are followed; matching looks at members,
   * and for an enumerator or a field nothing behind a pointer is needed.
   */
  ghost predicate Asks(btf: Types, spec: TargSpec, n: Node) {
    match spec.reloKind
    case TypeIdTarget | TypeExists | TypeSize => Needs(btf, Node(spec.rootTypeId, FollowPtr), n)
    case TypeMatches => Needs(btf, Node(spec.rootTypeId, Match(false)), n)
    case EnumvalExists | EnumvalValue => Needs(btf, Node(spec.rootTypeId, NoPtr), n)
    case TypeIdLocal | OtherRelo => false
    case _ =>
      || Needs(btf, Node(spec.rootTypeId, NoPtr), n)
      || exists hops: seq<Hop>, h :: OnAccess(btf, spec, hops, h) && Needs(btf, Node(hops[h].next, NoPtr), n)
  }

  /** The members that it asks for: those on the access path, or all those of the structures that are matched. */
  ghost predicate AsksMember(btf: Types, spec: TargSpec, i: nat, j: nat) {
    match spec.reloKind
    case TypeMatches =>
      && Needs(btf, Node(spec.rootTypeId, Match(false)), Node(i, Match(false)))
      && i < |btf| && btf[i].Composite? && j < |btf[i].members|
    case TypeIdTarget | TypeExists | TypeSize | EnumvalExists | EnumvalValue | TypeIdLocal | OtherRelo => false
    case _ => exists hops: seq<Hop>, h :: OnAccess(btf, spec, hops, h) && hops[h].at == i && hops[h].pos == j
  }

  lemma {:induction false} InHops(btf: Types, hops: seq<Hop>, d: nat, n: Node) returns (h: nat)
    requires Valid(btf) && InRange(btf, hops) && n in HopNodes(btf, hops, d)
    ensures h < |hops| && n in HopNode(btf, hops[h], d)
    decreases |hops|
  {
    if n in HopNode(btf, hops[|hops| - 1], d) {
      h := |hops| - 1;
    } else {
      h := InHops(btf, hops[..|hops| - 1], d, n);
    }
  }

  lemma {:induction false} InHopMembers(btf: Types, hops: seq<Hop>, m: (nat, nat)) returns (h: nat)
    requires InRange(btf, hops) && m in HopMembers(btf, hops)
    ensures h < |hops| && m in HopMember(btf, hops[h])
    decreases |hops|
  {
    if m in HopMember(btf, hops[|hops| - 1]) {
      h := |hops| - 1;
    } else {
      h := InHopMembers(btf, hops[..|hops| - 1], m);
    }
  }

  /** The hops of an accepted field relocation are those that its entries behind the first select. */
  lemma FieldAccess(btf: Types, spec: TargSpec, d: nat) returns (hops: seq<Hop>)
    requires Valid(btf) && spec.rootTypeId < |btf| && FieldAccepted(btf, spec, d)
    ensures Walk(btf, spec.rootTypeId, spec.rawSpec, 1, d) == Some(hops) && InRange(btf, hops)
    ensures spec.rawSpec != [] ==> IsAccess(btf, spec.rootTypeId, spec.rawSpec[1..], hops)
    ensures spec.rawSpec == [] ==> hops == []
  {
    hops := Walk(btf, spec.rootTypeId, spec.rawSpec, 1, d).value;
    if spec.rawSpec != [] {
      WalkIsAccess(btf, spec.rootTypeId, spec.rawSpec, 1, d, hops);
    }
  }

  lemma OnThisAccess(btf: Types, spec: TargSpec, hops: seq<Hop>, hops': seq<Hop>, h: int)
    requires spec.rawSpec != [] ==> IsAccess(btf, spec.rootTypeId, spec.rawSpec[1..], hops)
    requires OnAccess(btf, spec, hops', h)
    ensures hops' == hops
  {
    AccessOne(btf, spec.rootTypeId, spec.rawSpec[1..], hops, hops');
  }

  lemma FieldAsks(btf: Types, spec: TargSpec, d: nat, n: Node)
    requires Valid(btf) && spec.rootTypeId < |btf| && FieldAccepted(btf, spec, d) && IsFieldRelo(spec.reloKind)
    ensures n in FieldNodes(btf, spec, d) <==> Asks(btf, spec, n)
  {
    var hops := FieldAccess(btf, spec, d);
    ReachIffNeeded(btf, Node(spec.rootTypeId, NoPtr), d, n);
    if n in HopNodes(btf, hops, d) {
      var h := InHops(btf, hops, d, n);
      HopAsks(btf, hops, h, d, n);
      assert OnAccess(btf, spec, hops, h);
    }
    if hops': seq<Hop>, h :| (OnAccess(btf, spec, hops', h) && Needs(btf, Node(hops'[h].next, NoPtr), n)) {
      OnThisAccess(btf, spec, hops, hops', h);
      HopAsks(btf, hops, h, d, n);
      HopNodesMember(btf, hops, h, d);
    }
  }

  lemma HopAsks(btf: Types, hops: seq<Hop>, h: nat, d: nat, n: Node)
    requires Valid(btf) && WalkAccepted(btf, Some(hops), d) && h < |hops|
    ensures n in HopNode(btf, hops[h], d) <==>
      btf[hops[h].at].Composite? && Needs(btf, Node(hops[h].next, NoPtr), n)
  {
    assert HopAccepted(btf, hops[h], d);
    if btf[hops[h].at].Composite? {
      ReachIffNeeded(btf, Node(hops[h].next, NoPtr), d, n);
    }
  }

  lemma FieldAsksMember(btf: Types, spec: TargSpec, d: nat, i: nat, j: nat)
    requires Valid(btf) && spec.rootTypeId < |btf| && FieldAccepted(btf, spec, d) && IsFieldRelo(spec.reloKind)
    ensures (i, j) in FieldMembers(btf, spec, d) <==> AsksMember(btf, spec, i, j)
  {
    var hops := FieldAccess(btf, spec, d);
    if (i, j) in HopMembers(btf, hops) {
      var h := InHopMembers(btf, hops, (i, j));
      assert OnAccess(btf, spec, hops, h);
    }
    if hops': seq<Hop>, h :| (OnAccess(btf, spec, hops', h) && hops'[h].at == i && hops'[h].pos == j) {
      OnThisAccess(btf, spec, hops, hops', h);
      HopMembersMember(btf, hops, h);
      assert (i, j) in HopMember(btf, hops[h]);
    }
  }

  /** What recording an accepted relocation marks is exactly what it asks for. */
  lemma MarksAsked(btf: Types, spec: TargSpec, d: nat, n: Node)
    requires Valid(btf) && spec.rootTypeId < |btf| && Accepted(btf, spec, d)
    ensures n in NodesFor(btf, spec, d) <==> Asks(btf, spec, n)
  {
    if IsFieldRelo(spec.reloKind) {
      FieldAsks(btf, spec, d, n);
    } else if RootMode(spec.reloKind).Some? {
      ReachIffNeeded(btf, Node(spec.rootTypeId, RootMode(spec.reloKind).value), d, n);
    }
  }

  lemma MarksAskedMembers(btf: Types, spec: TargSpec, d: nat, i: nat, j: nat)
    requires Valid(btf) && spec.rootTypeId < |btf| && Accepted(btf, spec, d)
    ensures (i, j) in MembersFor(btf, spec, d) <==> AsksMember(btf, spec, i, j)
  {
    if IsFieldRelo(spec.reloKind) {
      FieldAsksMember(btf, spec, d, i, j);
    } else if spec.reloKind == TypeMatches {
      ReachIffNeeded(btf, Node(spec.rootTypeId, Match(false)), d, Node(i, Match(false)));
    }
  }

  /** The types of the members on the path can be marked. */
  ghost predicate PathMarkable(btf: Types, hops: seq<Hop>) {
    forall h :: 0 <= h < |hops| && hops[h].at < |btf| && btf[hops[h].at].Composite? ==>
      AllMarkable(btf, Node(hops[h].next, NoPtr))
  }

  /** A hop that the entries select and that can be marked is the next one that is walked. */
  lemma HopIsWalked(btf: Types, id: nat, raw: seq<nat>, i: nat, d: nat, hop: Hop)
    requires Valid(btf) && id < |btf| && Visit(btf, Node(id, NoPtr), d) == Some(true) && i < |raw|
    requires PathReturns(btf, id, raw, i, d) && StandsFor(btf, id, hop.at) && Enters(btf, hop, raw[i])
    requires btf[hop.at].Composite? ==> AllMarkable(btf, Node(hop.next, NoPtr))
    ensures OnPath(btf, id, raw, i, d, hop) && HopAccepted(btf, hop, d) && PathReturns(btf, hop.next, raw, i + 1, d)
    ensures Visit(btf, Node(hop.next, NoPtr), d) == Some(true)
  {
    var c := SkipStands(btf, id, d);
    StandsForOne(btf, id, hop.at, SkipMods(btf, id, d));
    assert hop.next == NextOf(btf, hop.at, hop.pos);
    if btf[hop.at].Composite? {
      SucceedsIff(btf, Node(hop.next, NoPtr), d);
    }
    NextMarkable(btf, hop, d);
  }

  lemma {:induction false} AccessIsWalk(btf: Types, id: nat, raw: seq<nat>, i: nat, d: nat, hops: seq<Hop>)
    requires Valid(btf) && id < |btf| && Visit(btf, Node(id, NoPtr), d) == Some(true) && i <= |raw|
    requires PathReturns(btf, id, raw, i, d) && IsAccess(btf, id, raw[i..], hops) && PathMarkable(btf, hops)
    ensures Walk(btf, id, raw, i, d) == Some(hops) && WalkAccepted(btf, Some(hops), d)
    decreases |raw| - i
  {
    if i < |raw| {
      var hop, rest := hops[0], hops[1..];
      HopIsWalked(btf, id, raw, i, d, hop);
      assert raw[i..][1..] == raw[i + 1..];
      assert forall h :: 0 <= h < |rest| ==> rest[h] == hops[h + 1];
      AccessIsWalk(btf, hop.next, raw, i + 1, d, rest);
      assert hops == [hop] + rest;
    }
  }

  lemma AcceptedPath(btf: Types, hops: seq<Hop>, d: nat)
    requires Valid(btf) && WalkAccepted(btf, Some(hops), d)
    ensures PathMarkable(btf, hops)
  {
    forall h | 0 <= h < |hops| && btf[hops[h].at].Composite? ensures AllMarkable(btf, Node(hops[h].next, NoPtr)) {
      assert HopAccepted(btf, hops[h], d);
      SucceedsIff(btf, Node(hops[h].next, NoPtr), d);
    }
  }

  /** A field relocation needs an access path, and what its root and the members on the path are made of. */
  lemma FieldAcceptedIff(btf: Types, spec: TargSpec, d: nat)
    requires Valid(btf) && Recordable(btf, spec, d) && IsFieldRelo(spec.reloKind) && spec.rawSpec != []
    ensures Accepted(btf, spec, d) <==>
      && AllMarkable(btf, Node(spec.rootTypeId, NoPtr))
      && exists hops :: IsAccess(btf, spec.rootTypeId, spec.rawSpec[1..], hops) && PathMarkable(btf, hops)
  {
    SucceedsIff(btf, Node(spec.rootTypeId, NoPtr), d);
    if Accepted(btf, spec, d) {
      var hops := FieldAccess(btf, spec, d);
      AcceptedPath(btf, hops, d);
    }
    if AllMarkable(btf, Node(spec.rootTypeId, NoPtr)) {
      if hops :| (IsAccess(btf, spec.rootTypeId, spec.rawSpec[1..], hops) && PathMarkable(btf, hops)) {
        AccessIsWalk(btf, spec.rootTypeId, spec.rawSpec, 1, d, hops);
      }
    }
  }

  /** Any other relocation whose recording returns is accepted exactly when all that it needs can be marked. */
  lemma AcceptedIff(btf: Types, spec: TargSpec, d: nat)
    requires Valid(btf) && Recordable(btf, spec, d) && !IsFieldRelo(spec.reloKind)
    ensures Accepted(btf, spec, d) <==>
      match spec.reloKind
      case TypeIdTarget | TypeExists | TypeSize => AllMarkable(btf, Node(spec.rootTypeId, FollowPtr))
      case TypeMatches => AllMarkable(btf, Node(spec.rootTypeId, Match(false)))
      case EnumvalExists | EnumvalValue => AllMarkable(btf, Node(spec.rootTypeId, NoPtr))
      case kind => kind == TypeIdLocal
  {
    if RootMode(spec.reloKind).Some? {
      SucceedsIff(btf, Node(spec.rootTypeId, RootMode(spec.reloKind).value), d);
    }
  }
}
