/** Recording relocations: which types and members of the source BTF are marked for the minimised one. */
module BtfgenMark {
  import opened Btf
  import opened Options

  datatype ReloKind =
    | FieldByteOffset | FieldByteSize | FieldExists | FieldSigned | FieldLshiftU64 | FieldRshiftU64
    | TypeIdLocal | TypeIdTarget | TypeExists | TypeSize | TypeMatches
    | EnumvalExists | EnumvalValue | OtherRelo

  /** The target of a relocation; entry 0 of `rawSpec` stands for the root itself. */
  datatype TargSpec = TargSpec(reloKind: ReloKind, rootTypeId: nat, rawSpec: seq<nat>)

  predicate IsFieldRelo(kind: ReloKind) {
    kind in {FieldByteOffset, FieldByteSize, FieldExists, FieldSigned, FieldLshiftU64, FieldRshiftU64}
  }

  // ---------------------------------------------------------------- access paths

  predicate IsModOrTypedef(t: BtfType) {
    t.Ref? && t.refKind in {Volatile, Const, Restrict, TypeTag, Typedef}
  }

  function SkipMods(btf: Types, id: nat, d: nat): nat
    decreases d
  {
    if d > 0 && id < |btf| && IsModOrTypedef(btf[id]) then SkipMods(btf, btf[id].typ, d - 1) else id
  }

  /** One step of an access path: entry `pos` of the composite or array type `at` leads to type `next`. */
  datatype Hop = Hop(at: nat, pos: nat, next: nat)

  /** The path that entries `i..` of `raw` describe from type `id`, if they describe one. */
  function Walk(btf: Types, id: nat, raw: seq<nat>, i: nat, d: nat): Option<seq<Hop>>
    decreases |raw| - i
  {
    if i >= |raw| then Some([])
    else
      var at := SkipMods(btf, id, d);
      if at >= |btf| then None
      else match btf[at]
        case Composite(_, _, _, members) =>
          if raw[i] < |members| then
            Onward(Hop(at, raw[i], members[raw[i]].typ), Walk(btf, members[raw[i]].typ, raw, i + 1, d))
          else None
        case Array(elem, _, _) =>
          Onward(Hop(at, raw[i], elem), Walk(btf, elem, raw, i + 1, d))
        case _ => None
  }

  function Onward(hop: Hop, rest: Option<seq<Hop>>): Option<seq<Hop>> {
    match rest
    case None => None
    case Some(hops) => Some([hop] + hops)
  }

  function After(hops: seq<Hop>, rest: Option<seq<Hop>>): Option<seq<Hop>> {
    match rest
    case None => None
    case Some(more) => Some(hops + more)
  }

  /**
   * The path never asks a composite type for a member it does not have, and marking the types of its members returns,
   * up to the first one that is refused.
   */
  ghost predicate PathReturns(btf: Types, id: nat, raw: seq<nat>, i: nat, d: nat)
    requires Valid(btf)
    decreases |raw| - i
  {
    i >= |raw| ||
    var at := SkipMods(btf, id, d);
    at >= |btf| ||
    match btf[at]
    case Composite(_, _, _, members) =>
      && raw[i] < |members|
      && var marked := Visit(btf, Node(NextOf(btf, at, raw[i]), NoPtr), d);
         marked.Some? && (marked.value ==> PathReturns(btf, NextOf(btf, at, raw[i]), raw, i + 1, d))
    case Array(elem, _, _) => PathReturns(btf, elem, raw, i + 1, d)
    case _ => true
  }

  /** The first hop of the path from type `id` on. */
  ghost predicate OnPath(btf: Types, id: nat, raw: seq<nat>, i: nat, d: nat, hop: Hop)
    requires Valid(btf) && i < |raw|
  {
    && hop.at == SkipMods(btf, id, d) && hop.at < |btf| && hop.next < |btf| && hop.pos == raw[i]
    && (btf[hop.at].Array? || btf[hop.at].Composite?)
    && (btf[hop.at].Composite? ==> hop.pos < |btf[hop.at].members|) && hop.next == NextOf(btf, hop.at, hop.pos)
    && Walk(btf, id, raw, i, d) == Onward(hop, Walk(btf, hop.next, raw, i + 1, d))
  }

  // ---------------------------------------------------------------- what a recording marks

  ghost function IdsOf(seen: set<Node>): set<nat> { set n | n in seen :: n.id }

  ghost function MembersOf(btf: Types, seen: set<Node>): set<(nat, nat)> {
    set n, i | n in seen && n.id < |btf| && KeepsMembers(btf[n.id], n.mode) && 0 <= i < |btf[n.id].members| :: (n.id, i)
  }

  /** The types marked for one step of a path: those that the type of a member needs. */
  ghost function HopNode(btf: Types, hop: Hop, d: nat): set<Node>
    requires Valid(btf) && hop.at < |btf| && hop.next < |btf|
  {
    if btf[hop.at].Composite? then Reach(btf, Node(hop.next, NoPtr), d) else {}
  }

  ghost predicate InRange(btf: Types, hops: seq<Hop>) {
    forall k :: 0 <= k < |hops| ==> hops[k].at < |btf| && hops[k].next < |btf|
  }

  ghost function HopNodes(btf: Types, hops: seq<Hop>, d: nat): set<Node>
    requires Valid(btf) && InRange(btf, hops)
  {
    if hops == [] then {} else HopNodes(btf, hops[..|hops| - 1], d) + HopNode(btf, hops[|hops| - 1], d)
  }

  /** The member marked for one step of a path. */
  ghost function HopMember(btf: Types, hop: Hop): set<(nat, nat)>
    requires hop.at < |btf|
  {
    if btf[hop.at].Composite? then {(hop.at, hop.pos)} else {}
  }

  ghost function HopMembers(btf: Types, hops: seq<Hop>): set<(nat, nat)>
    requires InRange(btf, hops)
  {
    if hops == [] then {} else HopMembers(btf, hops[..|hops| - 1]) + HopMember(btf, hops[|hops| - 1])
  }

  lemma {:induction false} WalkInRange(btf: Types, id: nat, raw: seq<nat>, i: nat, d: nat)
    requires Valid(btf) && id < |btf| && Walk(btf, id, raw, i, d).Some?
    ensures InRange(btf, Walk(btf, id, raw, i, d).value)
    decreases |raw| - i
  {
    if i < |raw| {
      var at := SkipMods(btf, id, d);
      var next := NextOf(btf, at, raw[i]);
      WalkInRange(btf, next, raw, i + 1, d);
    }
  }

  function NextOf(btf: Types, at: nat, pos: nat): (next: nat)
    requires Valid(btf) && at < |btf|
    requires btf[at].Array? || (btf[at].Composite? && pos < |btf[at].members|)
    ensures next < |btf|
  {
    var t := btf[at];
    if t.Array? then
      assert Ids(t)[0] == t.elem;
      t.elem
    else
      assert Ids(t)[pos] == t.members[pos].typ;
      t.members[pos].typ
  }

  /** Everything that recording `spec` needs: no out-of-range access and no endless recursion. */
  ghost predicate Recordable(btf: Types, spec: TargSpec, d: nat)
    requires Valid(btf)
  {
    var id := spec.rootTypeId;
    id < |btf| &&
    if IsFieldRelo(spec.reloKind) then
      var marked := Visit(btf, Node(id, NoPtr), d);
      marked.Some? && (marked.value ==> PathReturns(btf, id, spec.rawSpec, 1, d))
    else match RootMode(spec.reloKind)
      case Some(mode) => Visit(btf, Node(id, mode), d).Some?
      case None => true
  }

  // ---------------------------------------------------------------- the marked copy

  class BtfgenInfo {
    const srcBtf: Types
    // identifiers and (type, position) pairs whose name was overwritten with the mark
    var typeMarks: set<nat>
    var memberMarks: set<(nat, nat)>
    // the types marked so far, and how
    ghost var seen: set<Node>

    constructor (src: Types)
      requires Valid(src)
      ensures srcBtf == src && seen == {} && memberMarks == {} && Inv()
    {
      srcBtf, typeMarks, memberMarks, seen := src, {}, {}, {};
    }

    /** Marks are closed: see `RefsKept` for what follows. */
    ghost predicate Inv()
      reads this
    {
      && Valid(srcBtf) && Closed(srcBtf, seen)
      && typeMarks == IdsOf(seen)
      && MembersOf(srcBtf, seen) <= memberMarks
      && forall m :: m in memberMarks ==> MemberKept(srcBtf, typeMarks, m)
    }

    method MarkMember(typeId: nat, idx: nat)
      modifies this`memberMarks
      ensures memberMarks == old(memberMarks) + {(typeId, idx)}
    {
      memberMarks := memberMarks + {(typeId, idx)};
    }

    method MarkType(typeId: nat, followPointers: bool, ghost d: nat) returns (ok: bool)
      requires Valid(srcBtf) && typeId < |srcBtf|
      requires Visit(srcBtf, Node(typeId, PtrMode(followPointers)), d).Some?
      modifies this`typeMarks
      ensures var n := Node(typeId, PtrMode(followPointers));
        && ok == Visit(srcBtf, n, d).value
        && (ok ==> typeMarks == old(typeMarks) + IdsOf(Reach(srcBtf, n, d)))
      decreases d, 0
    {
      if typeId == 0 {
        return true;
      }
      typeMarks := typeMarks + {typeId};
      ReachUnfold(srcBtf, Node(typeId, PtrMode(followPointers)), d);
      ok := MarkReferents(typeId, followPointers, d - 1);
    }

    /** The switch over the kinds: marks what the type needs, or refuses the type. */
    method MarkReferents(typeId: nat, followPointers: bool, ghost d: nat) returns (ok: bool)
      requires Valid(srcBtf) && typeId < |srcBtf|
      requires var n := Node(typeId, PtrMode(followPointers));
        Supported(srcBtf[typeId], n.mode) ==> VisitAll(srcBtf, Next(srcBtf, n), d).Some?
      modifies this`typeMarks
      ensures var n := Node(typeId, PtrMode(followPointers));
        var nodes := ReachAll(srcBtf, Next(srcBtf, n), d);
        && (ok <==> Supported(srcBtf[typeId], n.mode) && VisitAll(srcBtf, Next(srcBtf, n), d).value)
        && (ok ==> typeMarks == old(typeMarks) + IdsOf(nodes))
      decreases d, 3
    {
      match srcBtf[typeId] {
        case Scalar(_, _, _) =>
          ok := true;
        case Composite(_, _, _, _) =>
          ok := true;
        case Ref(kind, _, typ) =>
          ReachOne(srcBtf, Node(typeId, PtrMode(followPointers)), d);
          if kind == Ptr {
            ok := true;
            if followPointers {
              ok := MarkType(typ, followPointers, d);
            }
          } else if kind in {Const, Restrict, Volatile, Typedef} {
            ok := MarkType(typ, followPointers, d);
          } else {
            ok := false;
          }
        case Array(_, _, _) =>
          ok := MarkArray(typeId, followPointers, d);
        case FuncProto(_, _) =>
          ok := MarkFuncProto(typeId, followPointers, d);
        case DataSec(_, _) =>
          ok := false;
      }
    }

    method MarkArray(typeId: nat, followPointers: bool, ghost d: nat) returns (ok: bool)
      requires Valid(srcBtf) && typeId < |srcBtf| && srcBtf[typeId].Array?
      requires VisitAll(srcBtf, Next(srcBtf, Node(typeId, PtrMode(followPointers))), d).Some?
      modifies this`typeMarks
      ensures var s := Next(srcBtf, Node(typeId, PtrMode(followPointers)));
        && ok == VisitAll(srcBtf, s, d).value
        && (ok ==> typeMarks == old(typeMarks) + IdsOf(ReachAll(srcBtf, s, d)))
      decreases d, 2
    {
      ghost var s := Next(srcBtf, Node(typeId, PtrMode(followPointers)));
      ReachTwo(srcBtf, s, d);
      VisitTwo(srcBtf, s, d);
      ok := MarkType(srcBtf[typeId].elem, followPointers, d);
      if ok {
        ok := MarkType(srcBtf[typeId].index, followPointers, d);
      }
    }

    method MarkFuncProto(typeId: nat, followPointers: bool, ghost d: nat) returns (ok: bool)
      requires Valid(srcBtf) && typeId < |srcBtf| && srcBtf[typeId].FuncProto?
      requires VisitAll(srcBtf, Next(srcBtf, Node(typeId, PtrMode(followPointers))), d).Some?
      modifies this`typeMarks
      ensures var s := Next(srcBtf, Node(typeId, PtrMode(followPointers)));
        && ok == VisitAll(srcBtf, s, d).value
        && (ok ==> typeMarks == old(typeMarks) + IdsOf(ReachAll(srcBtf, s, d)))
      decreases d, 2
    {
      ghost var s := Next(srcBtf, Node(typeId, PtrMode(followPointers)));
      ReachCons(srcBtf, s, d);
      ok := MarkType(srcBtf[typeId].ret, followPointers, d);
      if ok {
        ok := MarkParams(typeId, followPointers, d);
      }
    }

    method MarkParams(typeId: nat, followPointers: bool, ghost d: nat) returns (ok: bool)
      requires Valid(srcBtf) && typeId < |srcBtf| && srcBtf[typeId].FuncProto?
      requires VisitAll(srcBtf, Next(srcBtf, Node(typeId, PtrMode(followPointers)))[1..], d).Some?
      modifies this`typeMarks
      ensures var s := Next(srcBtf, Node(typeId, PtrMode(followPointers)))[1..];
        && ok == VisitAll(srcBtf, s, d).value
        && (ok ==> typeMarks == old(typeMarks) + IdsOf(ReachAll(srcBtf, s, d)))
      decreases d, 1
    {
      var params := srcBtf[typeId].params;
      ghost var s := Next(srcBtf, Node(typeId, PtrMode(followPointers)))[1..];
      var i := 0;
      while i < |params|
        invariant 0 <= i <= |params|
        invariant VisitAll(srcBtf, s[i..], d) == VisitAll(srcBtf, s, d)
        invariant typeMarks == old(typeMarks) + IdsOf(ReachAll(srcBtf, s[..i], d))
      {
        ReachSnoc(srcBtf, s, i, d);
        VisitFrom(srcBtf, s, i, d);
        ok := MarkType(params[i].typ, followPointers, d);
        if !ok {
          return;
        }
        i := i + 1;
      }
      assert s[..i] == s;
      ok := true;
    }

    method MarkTypeMatch(typeId: nat, behindPtr: bool, ghost d: nat) returns (ok: bool)
      requires Valid(srcBtf) && typeId < |srcBtf|
      requires Visit(srcBtf, Node(typeId, Match(behindPtr)), d).Some?
      modifies this`typeMarks, this`memberMarks
      ensures var n := Node(typeId, Match(behindPtr));
        && ok == Visit(srcBtf, n, d).value
        && (ok ==> MatchMarked(old(typeMarks), old(memberMarks), Reach(srcBtf, n, d)))
      decreases d, 0
    {
      if typeId == 0 {
        return true;
      }
      typeMarks := typeMarks + {typeId};
      ReachUnfold(srcBtf, Node(typeId, Match(behindPtr)), d);
      MembersUnfold(srcBtf, Node(typeId, Match(behindPtr)), d);
      ok := MatchReferents(typeId, behindPtr, d - 1);
    }

    /** The marks are those of before and those for `nodes`. */
    ghost predicate MatchMarked(types: set<nat>, members: set<(nat, nat)>, nodes: set<Node>)
      reads this
    {
      typeMarks == types + IdsOf(nodes) && memberMarks == members + MembersOf(srcBtf, nodes)
    }

    method MatchReferents(typeId: nat, behindPtr: bool, ghost d: nat) returns (ok: bool)
      requires Valid(srcBtf) && typeId < |srcBtf|
      requires var n := Node(typeId, Match(behindPtr));
        Supported(srcBtf[typeId], n.mode) ==> VisitAll(srcBtf, Next(srcBtf, n), d).Some?
      modifies this`typeMarks, this`memberMarks
      ensures var n := Node(typeId, Match(behindPtr));
        var nodes := ReachAll(srcBtf, Next(srcBtf, n), d);
        && (ok <==> Supported(srcBtf[typeId], n.mode) && VisitAll(srcBtf, Next(srcBtf, n), d).value)
        && (ok ==> MatchMarked(old(typeMarks), old(memberMarks) + OwnMembers(srcBtf, n), nodes))
      decreases d, 3
    {
      match srcBtf[typeId] {
        case Scalar(_, _, _) =>
          ok := true;
        case Composite(_, _, _, _) =>
          ok := true;
          if !behindPtr {
            ok := MatchMembers(typeId, d);
          }
        case Ref(kind, _, typ) =>
          ReachOne(srcBtf, Node(typeId, Match(behindPtr)), d);
          if kind in {Const, Fwd, Restrict, Typedef, Volatile} {
            ok := MarkTypeMatch(typ, behindPtr, d);
          } else if kind == Ptr {
            ok := MarkTypeMatch(typ, true, d);
          } else {
            ok := false;
          }
        case Array(_, _, _) =>
          ok := MatchArray(typeId, behindPtr, d);
        case FuncProto(_, _) =>
          ok := MatchFuncProto(typeId, behindPtr, d);
        case DataSec(_, _) =>
          ok := false;
      }
    }

    method MatchMembers(typeId: nat, ghost d: nat) returns (ok: bool)
      requires Valid(srcBtf) && typeId < |srcBtf| && srcBtf[typeId].Composite?
      requires VisitAll(srcBtf, Next(srcBtf, Node(typeId, Match(false))), d).Some?
      modifies this`typeMarks, this`memberMarks
      ensures var n := Node(typeId, Match(false));
        && ok == VisitAll(srcBtf, Next(srcBtf, n), d).value
        && (ok ==> MatchMarked(
              old(typeMarks), old(memberMarks) + OwnMembers(srcBtf, n), ReachAll(srcBtf, Next(srcBtf, n), d)))
      decreases d, 1
    {
      var members := srcBtf[typeId].members;
      ghost var s := Next(srcBtf, Node(typeId, Match(false)));
      ghost var done := {};
      var i := 0;
      while i < |members|
        invariant 0 <= i <= |members| && done == ReachAll(srcBtf, s[..i], d)
        invariant VisitAll(srcBtf, s[i..], d) == VisitAll(srcBtf, s, d)
        invariant MatchMarked(old(typeMarks), old(memberMarks) + FirstMembers(typeId, i), done)
      {
        MarkMember(typeId, i);
        FirstMembersNext(typeId, i);
        ReachSnoc(srcBtf, s, i, d);
        VisitFrom(srcBtf, s, i, d);
        ghost var nodes := Reach(srcBtf, s[i], d);
        MarksUnion(srcBtf, done, nodes);
        ok := MarkTypeMatch(members[i].typ, false, d);
        if !ok {
          return;
        }
        done := done + nodes;
        i := i + 1;
      }
      assert s[..i] == s;
      ok := true;
    }

    method MatchArray(typeId: nat, behindPtr: bool, ghost d: nat) returns (ok: bool)
      requires Valid(srcBtf) && typeId < |srcBtf| && srcBtf[typeId].Array?
      requires VisitAll(srcBtf, Next(srcBtf, Node(typeId, Match(behindPtr))), d).Some?
      modifies this`typeMarks, this`memberMarks
      ensures var s := Next(srcBtf, Node(typeId, Match(behindPtr)));
        && ok == VisitAll(srcBtf, s, d).value
        && (ok ==> MatchMarked(old(typeMarks), old(memberMarks), ReachAll(srcBtf, s, d)))
      decreases d, 2
    {
      ghost var s := Next(srcBtf, Node(typeId, Match(behindPtr)));
      ReachTwo(srcBtf, s, d);
      VisitTwo(srcBtf, s, d);
      MarksUnion(srcBtf, Reach(srcBtf, s[0], d), Reach(srcBtf, s[1], d));
      ok := MarkTypeMatch(srcBtf[typeId].elem, false, d);
      if ok {
        ok := MarkTypeMatch(srcBtf[typeId].index, false, d);
      }
    }

    method MatchFuncProto(typeId: nat, behindPtr: bool, ghost d: nat) returns (ok: bool)
      requires Valid(srcBtf) && typeId < |srcBtf| && srcBtf[typeId].FuncProto?
      requires VisitAll(srcBtf, Next(srcBtf, Node(typeId, Match(behindPtr))), d).Some?
      modifies this`typeMarks, this`memberMarks
      ensures var s := Next(srcBtf, Node(typeId, Match(behindPtr)));
        && ok == VisitAll(srcBtf, s, d).value
        && (ok ==> MatchMarked(old(typeMarks), old(memberMarks), ReachAll(srcBtf, s, d)))
      decreases d, 2
    {
      ghost var s := Next(srcBtf, Node(typeId, Match(behindPtr)));
      ReachCons(srcBtf, s, d);
      MarksUnion(srcBtf, Reach(srcBtf, s[0], d), ReachAll(srcBtf, s[1..], d));
      ok := MarkTypeMatch(srcBtf[typeId].ret, false, d);
      if ok {
        ok := MatchParams(typeId, behindPtr, d);
      }
    }

    method MatchParams(typeId: nat, behindPtr: bool, ghost d: nat) returns (ok: bool)
      requires Valid(srcBtf) && typeId < |srcBtf| && srcBtf[typeId].FuncProto?
      requires VisitAll(srcBtf, Next(srcBtf, Node(typeId, Match(behindPtr)))[1..], d).Some?
      modifies this`typeMarks, this`memberMarks
      ensures var s := Next(srcBtf, Node(typeId, Match(behindPtr)))[1..];
        && ok == VisitAll(srcBtf, s, d).value
        && (ok ==> MatchMarked(old(typeMarks), old(memberMarks), ReachAll(srcBtf, s, d)))
      decreases d, 1
    {
      var params := srcBtf[typeId].params;
      ghost var s := Next(srcBtf, Node(typeId, Match(behindPtr)))[1..];
      ghost var done := {};
      var i := 0;
      while i < |params|
        invariant 0 <= i <= |params| && done == ReachAll(srcBtf, s[..i], d)
        invariant VisitAll(srcBtf, s[i..], d) == VisitAll(srcBtf, s, d)
        invariant MatchMarked(old(typeMarks), old(memberMarks), done)
      {
        ReachSnoc(srcBtf, s, i, d);
        VisitFrom(srcBtf, s, i, d);
        ghost var nodes := Reach(srcBtf, s[i], d);
        MarksUnion(srcBtf, done, nodes);
        ok := MarkTypeMatch(params[i].typ, false, d);
        if !ok {
          return;
        }
        done := done + nodes;
        i := i + 1;
      }
      assert s[..i] == s;
      ok := true;
    }

    // -------------------------------------------------------------- relocations

    /** Adds a finished visit to the closed set of marks. */
    ghost method Finish(n: Node, d: nat)
      requires Valid(srcBtf) && n.id < |srcBtf| && Visit(srcBtf, n, d) == Some(true)
      requires Closed(srcBtf, seen) && typeMarks == IdsOf(seen) + IdsOf(Reach(srcBtf, n, d))
      requires MembersOf(srcBtf, seen) + MembersOf(srcBtf, Reach(srcBtf, n, d)) <= memberMarks
      modifies this`seen
      ensures seen == old(seen) + Reach(srcBtf, n, d)
      ensures Closed(srcBtf, seen) && typeMarks == IdsOf(seen) && MembersOf(srcBtf, seen) <= memberMarks
      ensures n.id == 0 || n in seen
    {
      VisitTrue(srcBtf, n, d);
      ReachClosed(srcBtf, n, d);
      ClosedUnion(srcBtf, seen, Reach(srcBtf, n, d));
      MarksUnion(srcBtf, seen, Reach(srcBtf, n, d));
      seen := seen + Reach(srcBtf, n, d);
    }

    method RecordTypeRelo(spec: TargSpec, followPointers: bool, ghost d: nat) returns (ok: bool)
      requires Inv() && spec.rootTypeId < |srcBtf|
      requires Visit(srcBtf, Node(spec.rootTypeId, PtrMode(followPointers)), d).Some?
      modifies this`typeMarks, this`seen
      ensures var n := Node(spec.rootTypeId, PtrMode(followPointers));
        && ok == Visit(srcBtf, n, d).value
        && (ok ==> Inv() && seen == old(seen) + Reach(srcBtf, n, d))
        && (ok ==> spec.rootTypeId == 0 || n in seen)
    {
      ok := MarkType(spec.rootTypeId, followPointers, d);
      if ok {
        NoMembers(srcBtf, Node(spec.rootTypeId, PtrMode(followPointers)), d);
        Finish(Node(spec.rootTypeId, PtrMode(followPointers)), d);
      }
    }

    method RecordTypeMatchRelo(spec: TargSpec, ghost d: nat) returns (ok: bool)
      requires Inv() && spec.rootTypeId < |srcBtf|
      requires Visit(srcBtf, Node(spec.rootTypeId, Match(false)), d).Some?
      modifies this`typeMarks, this`memberMarks, this`seen
      ensures var nodes := Reach(srcBtf, Node(spec.rootTypeId, Match(false)), d);
        && ok == Visit(srcBtf, Node(spec.rootTypeId, Match(false)), d).value
        && (ok ==> Inv() && seen == old(seen) + nodes && memberMarks == old(memberMarks) + MembersOf(srcBtf, nodes))
        && (ok ==> spec.rootTypeId == 0 || Node(spec.rootTypeId, Match(false)) in seen)
    {
      ok := MarkTypeMatch(spec.rootTypeId, false, d);
      if ok {
        Finish(Node(spec.rootTypeId, Match(false)), d);
        forall m | m in memberMarks ensures MemberKept(srcBtf, typeMarks, m) {
          if m !in old(memberMarks) {
            ClosedMembersKept(srcBtf, seen, m);
          }
        }
      }
    }

    /** Skips typedefs and modifiers of a type whose marking succeeded. */
    method SkipModsAndTypedefs(typeId: nat, ghost d: nat) returns (at: nat)
      requires Inv() && typeId < |srcBtf| && (typeId == 0 || Node(typeId, NoPtr) in seen)
      requires Bounded(srcBtf, Node(typeId, NoPtr), d)
      ensures at == SkipMods(srcBtf, typeId, d) && at < |srcBtf| && Bounded(srcBtf, Node(at, NoPtr), d)
      ensures (at == 0 || Node(at, NoPtr) in seen) && !IsModOrTypedef(srcBtf[at])
    {
      at := typeId;
      ghost var f: nat := d;
      while IsModOrTypedef(srcBtf[at])
        invariant at < |srcBtf| && (at == 0 || Node(at, NoPtr) in seen)
        invariant f <= d && Bounded(srcBtf, Node(at, NoPtr), f)
        invariant SkipMods(srcBtf, at, f) == SkipMods(srcBtf, typeId, d)
        decreases f
      {
        ghost var s := Next(srcBtf, Node(at, NoPtr));
        assert |s| == 1 && s[0] == Node(srcBtf[at].typ, NoPtr);
        at := srcBtf[at].typ;
        f := f - 1;
      }
      BoundedMore(srcBtf, Node(at, NoPtr), f, d);
    }

    /** One round of the loop over the access path. */
    method RecordHop(typeId: nat, raw: seq<nat>, i: nat, ghost d: nat) returns (ok: bool, hop: Hop)
      requires Inv() && typeId < |srcBtf| && (typeId == 0 || Node(typeId, NoPtr) in seen)
      requires Bounded(srcBtf, Node(typeId, NoPtr), d)
      requires i < |raw| && PathReturns(srcBtf, typeId, raw, i, d)
      modifies this`typeMarks, this`memberMarks, this`seen
      ensures ok ==> OnPath(srcBtf, typeId, raw, i, d, hop) && HopAccepted(srcBtf, hop, d)
      ensures ok ==> Inv() && (hop.next == 0 || Node(hop.next, NoPtr) in seen)
      ensures ok ==> Bounded(srcBtf, Node(hop.next, NoPtr), d) && PathReturns(srcBtf, hop.next, raw, i + 1, d)
      ensures ok ==> seen == old(seen) + HopNode(srcBtf, hop, d)
      ensures ok ==> memberMarks == old(memberMarks) + HopMember(srcBtf, hop)
      ensures !ok ==> !WalkAccepted(srcBtf, Walk(srcBtf, typeId, raw, i, d), d)
    {
      var at := SkipModsAndTypedefs(typeId, d);
      match srcBtf[at] {
        case Composite(_, _, _, members) =>
          hop := Hop(at, raw[i], members[raw[i]].typ);
          MarkMember(at, raw[i]);
          ghost var n := Node(hop.next, NoPtr);
          ok := MarkType(hop.next, false, d);
          if ok {
            NoMembers(srcBtf, n, d);
            Finish(n, d);
            VisitTrue(srcBtf, n, d);
          } else {
            RefusedHop(srcBtf, hop, Walk(srcBtf, hop.next, raw, i + 1, d), d);
          }
        case Array(elem, _, _) =>
          hop := Hop(at, raw[i], elem);
          ok := true;
          assert Next(srcBtf, Node(at, NoPtr))[0] == Node(elem, NoPtr);
          BoundedMore(srcBtf, Node(elem, NoPtr), d - 1, d);
        case _ =>
          hop := Hop(at, raw[i], 0);
          ok := false;
      }
    }

    /** The loop over the access path. */
    method RecordHops(rootTypeId: nat, raw: seq<nat>, ghost d: nat) returns (ok: bool, ghost hops: seq<Hop>)
      requires Inv() && rootTypeId < |srcBtf| && (rootTypeId == 0 || Node(rootTypeId, NoPtr) in seen)
      requires Bounded(srcBtf, Node(rootTypeId, NoPtr), d) && PathReturns(srcBtf, rootTypeId, raw, 1, d)
      modifies this`typeMarks, this`memberMarks, this`seen
      ensures ok ==> Walk(srcBtf, rootTypeId, raw, 1, d) == Some(hops) && InRange(srcBtf, hops)
      ensures ok ==> AllHopsAccepted(srcBtf, hops, d)
      ensures ok ==> Inv() && seen == old(seen) + HopNodes(srcBtf, hops, d)
      ensures ok ==> memberMarks == old(memberMarks) + HopMembers(srcBtf, hops)
      ensures !ok ==> !WalkAccepted(srcBtf, Walk(srcBtf, rootTypeId, raw, 1, d), d)
    {
      var typeId: nat := rootTypeId;
      hops := [];
      AfterNothing(Walk(srcBtf, typeId, raw, 1, d));
      ghost var nodes, members := {}, {};
      var i: nat := 1;
      while i < |raw|
        invariant i >= 1 && typeId < |srcBtf| && (typeId == 0 || Node(typeId, NoPtr) in seen)
        invariant Inv() && Bounded(srcBtf, Node(typeId, NoPtr), d) && PathReturns(srcBtf, typeId, raw, i, d)
        invariant Walk(srcBtf, rootTypeId, raw, 1, d) == After(hops, Walk(srcBtf, typeId, raw, i, d))
        invariant InRange(srcBtf, hops) && AllHopsAccepted(srcBtf, hops, d)
        invariant nodes == HopNodes(srcBtf, hops, d) && members == HopMembers(srcBtf, hops)
        invariant seen == old(seen) + nodes && memberMarks == old(memberMarks) + members
      {
        var hop;
        ok, hop := RecordHop(typeId, raw, i, d);
        if !ok {
          RefusedAfter(srcBtf, hops, Walk(srcBtf, typeId, raw, i, d), d);
          return;
        }
        AfterOnward(hops, hop, Walk(srcBtf, hop.next, raw, i + 1, d));
        HopsSnoc(srcBtf, hops, hop, d);
        nodes := nodes + HopNode(srcBtf, hop, d);
        members := members + HopMember(srcBtf, hop);
        hops := hops + [hop];
        typeId := hop.next;
        i := i + 1;
      }
      assert hops + [] == hops;
      ok := true;
    }

    method RecordFieldRelo(spec: TargSpec, ghost d: nat) returns (ok: bool)
      requires Inv() && IsFieldRelo(spec.reloKind) && Recordable(srcBtf, spec, d)
      modifies this`typeMarks, this`memberMarks, this`seen
      ensures ok <==> FieldAccepted(srcBtf, spec, d)
      ensures ok ==> Inv() && seen == old(seen) + FieldNodes(srcBtf, spec, d)
      ensures ok ==> memberMarks == old(memberMarks) + FieldMembers(srcBtf, spec, d)
      ensures ok ==> spec.rootTypeId == 0 || Node(spec.rootTypeId, NoPtr) in seen
    {
      ok := RecordTypeRelo(spec, false, d);
      if ok {
        VisitTrue(srcBtf, Node(spec.rootTypeId, NoPtr), d);
        ghost var hops;
        ok, hops := RecordHops(spec.rootTypeId, spec.rawSpec, d);
      }
    }

    /** Records one relocation; on success the new marks are exactly those the relocation asks for. */
    method RecordReloc(spec: TargSpec, ghost d: nat) returns (ok: bool)
      requires Inv() && Recordable(srcBtf, spec, d)
      modifies this`typeMarks, this`memberMarks, this`seen
      ensures ok <==> Accepted(srcBtf, spec, d)
      ensures ok ==> Inv() && seen == old(seen) + NodesFor(srcBtf, spec, d)
      ensures ok ==> memberMarks == old(memberMarks) + MembersFor(srcBtf, spec, d)
    {
      if IsFieldRelo(spec.reloKind) {
        ok := RecordFieldRelo(spec, d);
      } else if spec.reloKind == TypeIdLocal {
        ok := true;
      } else if spec.reloKind in {TypeIdTarget, TypeExists, TypeSize} {
        ok := RecordTypeRelo(spec, true, d);
      } else if spec.reloKind == TypeMatches {
        ok := RecordTypeMatchRelo(spec, d);
      } else if spec.reloKind in {EnumvalExists, EnumvalValue} {
        ok := RecordTypeRelo(spec, false, d);
      } else {
        ok := false;
      }
    }

    /** Records the relocations of an object, up to the first one that is refused. */
    method RecordObj(specs: seq<TargSpec>, ghost d: nat) returns (ok: bool)
      requires Inv() && AllRecordable(srcBtf, specs, d)
      modifies this`typeMarks, this`memberMarks, this`seen
      ensures ok <==> AllAccepted(srcBtf, specs, d)
      ensures ok ==> Inv() && seen == old(seen) + NodesForAll(srcBtf, specs, d)
      ensures ok ==> memberMarks == old(memberMarks) + MembersForAll(srcBtf, specs, d)
    {
      ghost var nodes, members := {}, {};
      var i := 0;
      while i < |specs|
        invariant 0 <= i <= |specs| && Inv()
        invariant AllAccepted(srcBtf, specs[..i], d)
        invariant nodes == NodesForAll(srcBtf, specs[..i], d) && members == MembersForAll(srcBtf, specs[..i], d)
        invariant seen == old(seen) + nodes && memberMarks == old(memberMarks) + members
      {
        assert Recordable(srcBtf, specs[i], d);
        ok := RecordReloc(specs[i], d);
        if !ok {
          return;
        }
        ForAllSnoc(srcBtf, specs, i, d);
        nodes := nodes + NodesFor(srcBtf, specs[i], d);
        members := members + MembersFor(srcBtf, specs[i], d);
        i := i + 1;
      }
      assert specs[..i] == specs;
      ok := true;
    }
  }

  /** How the root of a relocation that is not a field relocation is marked, if at all. */
  function RootMode(kind: ReloKind): Option<Mode> {
    if kind in {TypeIdTarget, TypeExists, TypeSize} then Some(FollowPtr)
    else if kind == TypeMatches then Some(Match(false))
    else if kind in {EnumvalExists, EnumvalValue} then Some(NoPtr)
    else None
  }

  ghost predicate Accepted(btf: Types, spec: TargSpec, d: nat)
    requires Valid(btf) && spec.rootTypeId < |btf|
  {
    if IsFieldRelo(spec.reloKind) then FieldAccepted(btf, spec, d)
    else match RootMode(spec.reloKind)
      case Some(mode) => Visit(btf, Node(spec.rootTypeId, mode), d) == Some(true)
      case None => spec.reloKind == TypeIdLocal
  }

  /** The types that a relocation asks for. */
  ghost function NodesFor(btf: Types, spec: TargSpec, d: nat): set<Node>
    requires Valid(btf) && spec.rootTypeId < |btf| && Accepted(btf, spec, d)
  {
    if IsFieldRelo(spec.reloKind) then FieldNodes(btf, spec, d)
    else match RootMode(spec.reloKind)
      case Some(mode) => Reach(btf, Node(spec.rootTypeId, mode), d)
      case None => {}
  }

  /** The members that a relocation asks for. */
  ghost function MembersFor(btf: Types, spec: TargSpec, d: nat): set<(nat, nat)>
    requires Valid(btf) && spec.rootTypeId < |btf| && Accepted(btf, spec, d)
  {
    if IsFieldRelo(spec.reloKind) then FieldMembers(btf, spec, d)
    else if spec.reloKind == TypeMatches then MembersOf(btf, Reach(btf, Node(spec.rootTypeId, Match(false)), d))
    else {}
  }

  ghost predicate AllAccepted(btf: Types, specs: seq<TargSpec>, d: nat)
    requires Valid(btf)
  {
    forall k :: 0 <= k < |specs| ==> specs[k].rootTypeId < |btf| && Accepted(btf, specs[k], d)
  }

  /** Each relocation can be recorded, if those before it are accepted. */
  ghost predicate AllRecordable(btf: Types, specs: seq<TargSpec>, d: nat)
    requires Valid(btf)
  {
    forall k :: 0 <= k < |specs| && AllAccepted(btf, specs[..k], d) ==> Recordable(btf, specs[k], d)
  }

  ghost function NodesForAll(btf: Types, specs: seq<TargSpec>, d: nat): set<Node>
    requires Valid(btf) && AllAccepted(btf, specs, d)
  {
    if specs == [] then {}
    else NodesForAll(btf, specs[..|specs| - 1], d) + NodesFor(btf, specs[|specs| - 1], d)
  }

  ghost function MembersForAll(btf: Types, specs: seq<TargSpec>, d: nat): set<(nat, nat)>
    requires Valid(btf) && AllAccepted(btf, specs, d)
  {
    if specs == [] then {}
    else MembersForAll(btf, specs[..|specs| - 1], d) + MembersFor(btf, specs[|specs| - 1], d)
  }

  lemma ForAllSnoc(btf: Types, specs: seq<TargSpec>, i: nat, d: nat)
    requires Valid(btf) && i < |specs| && AllAccepted(btf, specs[..i], d)
    requires specs[i].rootTypeId < |btf| && Accepted(btf, specs[i], d)
    ensures AllAccepted(btf, specs[..i + 1], d)
    ensures NodesForAll(btf, specs[..i + 1], d) == NodesForAll(btf, specs[..i], d) + NodesFor(btf, specs[i], d)
    ensures MembersForAll(btf, specs[..i + 1], d) == MembersForAll(btf, specs[..i], d) + MembersFor(btf, specs[i], d)
  {
    AcceptedSnoc(btf, specs[..i], specs[i], d);
    assert specs[..i + 1] == specs[..i] + [specs[i]];
    UnionsSnoc(btf, specs[..i], specs[i], d);
  }

  lemma AcceptedSnoc(btf: Types, specs: seq<TargSpec>, spec: TargSpec, d: nat)
    requires Valid(btf) && AllAccepted(btf, specs, d) && spec.rootTypeId < |btf| && Accepted(btf, spec, d)
    ensures AllAccepted(btf, specs + [spec], d)
  {
  }

  lemma UnionsSnoc(btf: Types, specs: seq<TargSpec>, spec: TargSpec, d: nat)
    requires Valid(btf) && AllAccepted(btf, specs, d) && spec.rootTypeId < |btf| && Accepted(btf, spec, d)
    requires AllAccepted(btf, specs + [spec], d)
    ensures NodesForAll(btf, specs + [spec], d) == NodesForAll(btf, specs, d) + NodesFor(btf, spec, d)
    ensures MembersForAll(btf, specs + [spec], d) == MembersForAll(btf, specs, d) + MembersFor(btf, spec, d)
  {
    assert (specs + [spec])[..|specs|] == specs;
  }

  lemma {:induction false} InForAll(btf: Types, specs: seq<TargSpec>, k: nat, d: nat)
    requires Valid(btf) && AllAccepted(btf, specs, d) && k < |specs|
    ensures NodesFor(btf, specs[k], d) <= NodesForAll(btf, specs, d)
    ensures MembersFor(btf, specs[k], d) <= MembersForAll(btf, specs, d)
    decreases |specs|
  {
    if k < |specs| - 1 {
      InForAll(btf, specs[..|specs| - 1], k, d);
    }
  }

  /** If the step is to a member, marking its type succeeds. */
  ghost predicate HopAccepted(btf: Types, hop: Hop, d: nat)
    requires Valid(btf) && hop.at < |btf| && hop.next < |btf|
  {
    btf[hop.at].Composite? ==> Visit(btf, Node(hop.next, NoPtr), d) == Some(true)
  }

  ghost predicate AllHopsAccepted(btf: Types, hops: seq<Hop>, d: nat)
    requires Valid(btf) && InRange(btf, hops)
  {
    forall k :: 0 <= k < |hops| ==> HopAccepted(btf, hops[k], d)
  }

  /** The path leads through composite and array types, and marking the types of the members on it succeeds. */
  ghost predicate WalkAccepted(btf: Types, walk: Option<seq<Hop>>, d: nat)
    requires Valid(btf)
  {
    walk.Some? && InRange(btf, walk.value) && AllHopsAccepted(btf, walk.value, d)
  }

  ghost predicate FieldAccepted(btf: Types, spec: TargSpec, d: nat)
    requires Valid(btf) && spec.rootTypeId < |btf|
  {
    && Visit(btf, Node(spec.rootTypeId, NoPtr), d) == Some(true)
    && WalkAccepted(btf, Walk(btf, spec.rootTypeId, spec.rawSpec, 1, d), d)
  }

  ghost function FieldNodes(btf: Types, spec: TargSpec, d: nat): set<Node>
    requires Valid(btf) && spec.rootTypeId < |btf| && FieldAccepted(btf, spec, d)
  {
    WalkInRange(btf, spec.rootTypeId, spec.rawSpec, 1, d);
    Reach(btf, Node(spec.rootTypeId, NoPtr), d) + HopNodes(btf, Walk(btf, spec.rootTypeId, spec.rawSpec, 1, d).value, d)
  }

  ghost function FieldMembers(btf: Types, spec: TargSpec, d: nat): set<(nat, nat)>
    requires Valid(btf) && spec.rootTypeId < |btf| && FieldAccepted(btf, spec, d)
  {
    WalkInRange(btf, spec.rootTypeId, spec.rawSpec, 1, d);
    HopMembers(btf, Walk(btf, spec.rootTypeId, spec.rawSpec, 1, d).value)
  }

  lemma HopsSnoc(btf: Types, hops: seq<Hop>, hop: Hop, d: nat)
    requires Valid(btf) && InRange(btf, hops) && hop.at < |btf| && hop.next < |btf|
    requires AllHopsAccepted(btf, hops, d) && HopAccepted(btf, hop, d)
    ensures InRange(btf, hops + [hop]) && AllHopsAccepted(btf, hops + [hop], d)
    ensures HopNodes(btf, hops + [hop], d) == HopNodes(btf, hops, d) + HopNode(btf, hop, d)
    ensures HopMembers(btf, hops + [hop]) == HopMembers(btf, hops) + HopMember(btf, hop)
  {
    assert (hops + [hop])[..|hops|] == hops;
  }

  lemma AfterNothing(rest: Option<seq<Hop>>)
    ensures After([], rest) == rest
  {
    if rest.Some? {
      assert [] + rest.value == rest.value;
    }
  }

  lemma AfterOnward(hops: seq<Hop>, hop: Hop, rest: Option<seq<Hop>>)
    ensures After(hops, Onward(hop, rest)) == After(hops + [hop], rest)
  {
    if rest.Some? {
      assert hops + ([hop] + rest.value) == hops + [hop] + rest.value;
    }
  }

  lemma {:induction false} HopNodesMember(btf: Types, hops: seq<Hop>, k: nat, d: nat)
    requires Valid(btf) && InRange(btf, hops) && k < |hops|
    ensures HopNode(btf, hops[k], d) <= HopNodes(btf, hops, d)
    decreases |hops|
  {
    if k < |hops| - 1 {
      HopNodesMember(btf, hops[..|hops| - 1], k, d);
    }
  }

  lemma {:induction false} HopMembersMember(btf: Types, hops: seq<Hop>, k: nat)
    requires InRange(btf, hops) && k < |hops|
    ensures HopMember(btf, hops[k]) <= HopMembers(btf, hops)
    decreases |hops|
  {
    if k < |hops| - 1 {
      HopMembersMember(btf, hops[..|hops| - 1], k);
    }
  }

  lemma RefusedHop(btf: Types, hop: Hop, rest: Option<seq<Hop>>, d: nat)
    requires Valid(btf) && hop.at < |btf| && hop.next < |btf| && !HopAccepted(btf, hop, d)
    ensures !WalkAccepted(btf, Onward(hop, rest), d)
  {
    if rest.Some? {
      assert ([hop] + rest.value)[0] == hop;
    }
  }

  lemma RefusedAfter(btf: Types, hops: seq<Hop>, rest: Option<seq<Hop>>, d: nat)
    requires Valid(btf) && !WalkAccepted(btf, rest, d)
    ensures !WalkAccepted(btf, After(hops, rest), d)
  {
    if WalkAccepted(btf, After(hops, rest), d) {
      var all := hops + rest.value;
      assert forall k :: 0 <= k < |rest.value| ==> rest.value[k] == all[|hops| + k];
      assert false;
    }
  }

  /** Only matching keeps members by itself. */
  lemma {:induction false} NoMembers(btf: Types, n: Node, d: nat)
    requires Valid(btf) && n.id < |btf| && !n.mode.Match?
    ensures MembersOf(btf, Reach(btf, n, d)) == {}
  {
    ModeKept(btf, n, d);
  }

  lemma {:induction false} ModeKept(btf: Types, n: Node, d: nat)
    requires Valid(btf) && n.id < |btf| && !n.mode.Match?
    ensures forall m :: m in Reach(btf, n, d) ==> m.mode == n.mode
    decreases d, 0
  {
    if n.id != 0 && d > 0 {
      assert forall k :: 0 <= k < |Next(btf, n)| ==> Next(btf, n)[k].mode == n.mode;
      ModeKeptAll(btf, Next(btf, n), n.mode, d - 1);
    }
  }

  lemma {:induction false} ModeKeptAll(btf: Types, s: seq<Node>, mode: Mode, d: nat)
    requires Valid(btf) && !mode.Match? && forall k :: 0 <= k < |s| ==> s[k].id < |btf| && s[k].mode == mode
    ensures forall m :: m in ReachAll(btf, s, d) ==> m.mode == mode
    decreases d, |s| + 1
  {
    if s != [] {
      ModeKeptAll(btf, s[..|s| - 1], mode, d);
      ModeKept(btf, s[|s| - 1], d);
    }
  }

  lemma ClosedMembersKept(btf: Types, seen: set<Node>, m: (nat, nat))
    requires Valid(btf) && Closed(btf, seen) && m in MembersOf(btf, seen)
    ensures MemberKept(btf, IdsOf(seen), m)
  {
    var n :| n in seen && n.id == m.0 && n.id < |btf| && KeepsMembers(btf[n.id], n.mode) && m.1 < |btf[n.id].members|;
    assert Next(btf, n)[m.1].id == btf[n.id].members[m.1].typ;
  }

  /** The members that marking `n` itself marks. */
  ghost function OwnMembers(btf: Types, n: Node): set<(nat, nat)>
    requires n.id < |btf|
  {
    if KeepsMembers(btf[n.id], n.mode) then FirstMembers(n.id, |btf[n.id].members|) else {}
  }

  ghost function FirstMembers(id: nat, count: nat): set<(nat, nat)> { set i | 0 <= i < count :: (id, i) }

  lemma FirstMembersNext(id: nat, i: nat)
    ensures FirstMembers(id, i + 1) == FirstMembers(id, i) + {(id, i)}
  {
    assert forall m :: m in FirstMembers(id, i + 1) ==> m in FirstMembers(id, i) || m == (id, i);
  }

  lemma MembersUnfold(btf: Types, n: Node, d: nat)
    requires Valid(btf) && 0 < n.id < |btf| && d > 0
    ensures MembersOf(btf, Reach(btf, n, d)) ==
      OwnMembers(btf, n) + MembersOf(btf, ReachAll(btf, Next(btf, n), d - 1))
  {
    ReachUnfold(btf, n, d);
    MarksUnion(btf, {n}, ReachAll(btf, Next(btf, n), d - 1));
    assert MembersOf(btf, {n}) == OwnMembers(btf, n);
  }

  lemma MarksUnion(btf: Types, a: set<Node>, b: set<Node>)
    ensures MembersOf(btf, a + b) == MembersOf(btf, a) + MembersOf(btf, b)
    ensures IdsOf(a + b) == IdsOf(a) + IdsOf(b)
    ensures AllSupported(btf, a + b) <==> AllSupported(btf, a) && AllSupported(btf, b)
  {
  }

  function PtrMode(followPointers: bool): Mode { if followPointers then FollowPtr else NoPtr }

  // ---------------------------------------------------------------- visited sets

  lemma ReachUnfold(btf: Types, n: Node, d: nat)
    requires Valid(btf) && 0 < n.id < |btf| && d > 0
    ensures var rest := ReachAll(btf, Next(btf, n), d - 1);
      Reach(btf, n, d) == {n} + rest && IdsOf(Reach(btf, n, d)) == {n.id} + IdsOf(rest)
  {
  }

  lemma ReachOne(btf: Types, n: Node, d: nat)
    requires Valid(btf) && n.id < |btf| && btf[n.id].Ref?
    ensures var s := Next(btf, n);
      && (s == [] || |s| == 1)
      && (s != [] ==>
            && s[0].id == btf[n.id].typ < |btf|
            && ReachAll(btf, s, d) == Reach(btf, s[0], d) && VisitAll(btf, s, d) == Visit(btf, s[0], d))
  {
    var s := Next(btf, n);
    if s != [] {
      ReachCons(btf, s, d);
    }
  }

  lemma ReachTwo(btf: Types, s: seq<Node>, d: nat)
    requires Valid(btf) && |s| == 2 && s[0].id < |btf| && s[1].id < |btf|
    ensures ReachAll(btf, s, d) == Reach(btf, s[0], d) + Reach(btf, s[1], d)
  {
    ReachCons(btf, s, d);
  }

  lemma VisitTwo(btf: Types, s: seq<Node>, d: nat)
    requires Valid(btf) && |s| == 2 && s[0].id < |btf| && s[1].id < |btf|
    ensures VisitAll(btf, s, d) ==
      if Visit(btf, s[0], d) == Some(true) then Visit(btf, s[1], d) else Visit(btf, s[0], d)
  {
    assert VisitAll(btf, s[1..], d) == Visit(btf, s[1], d) by {
      assert s[1..][1..] == [];
    }
  }

  /** What is left of the visits when `i` of them have succeeded. */
  lemma VisitFrom(btf: Types, s: seq<Node>, i: nat, d: nat)
    requires Valid(btf) && i < |s| && forall k :: 0 <= k < |s| ==> s[k].id < |btf|
    ensures VisitAll(btf, s[i..], d) ==
      if Visit(btf, s[i], d) == Some(true) then VisitAll(btf, s[i + 1..], d) else Visit(btf, s[i], d)
  {
    assert s[i..][1..] == s[i + 1..];
  }

  lemma ReachSnoc(btf: Types, s: seq<Node>, i: nat, d: nat)
    requires Valid(btf) && i < |s| && forall k :: 0 <= k < |s| ==> s[k].id < |btf|
    ensures ReachAll(btf, s[..i + 1], d) == ReachAll(btf, s[..i], d) + Reach(btf, s[i], d)
  {
    assert s[..i + 1][..i] == s[..i];
  }

  /** A marked member belongs to a marked composite type, and its own type is marked or void. */
  ghost predicate MemberKept(btf: Types, types: set<nat>, m: (nat, nat)) {
    && m.0 in types && m.0 < |btf| && btf[m.0].Composite? && m.1 < |btf[m.0].members|
    && (btf[m.0].members[m.1].typ == 0 || btf[m.0].members[m.1].typ in types)
  }
}
