/** Minimisation preserves what relocations look at: access paths and the shape of types. */
module BtfgenTheorems {
  import opened Btf
  import opened BtfgenMark
  import opened BtfgenOutput
  import opened Options

  // ---------------------------------------------------------------- the shape of types

  /** What marking in a certain mode sees of a record itself: everything but identifiers and skipped members. */
  function Shape(t: BtfType, mode: Mode): BtfType {
    match t
    case Scalar(_, _, _) => t
    case Ref(kind, name, _) => Ref(kind, name, 0)
    case Array(_, _, nelems) => Array(0, 0, nelems)
    case Composite(isUnion, name, size, members) =>
      Composite(isUnion, name, size, if KeepsMembers(t, mode) then Bare(members) else [])
    case FuncProto(_, params) => FuncProto(0, BareParams(params))
    case DataSec(name, vars) => DataSec(name, BareParams(vars))
  }

  function Bare(members: seq<Member>): seq<Member> {
    seq(|members|, k requires 0 <= k < |members| => members[k].(typ := 0))
  }

  function BareParams(params: seq<Param>): seq<Param> {
    seq(|params|, k requires 0 <= k < |params| => params[k].(typ := 0))
  }

  datatype Tree = Void | Deeper | Tree(shape: BtfType, children: seq<Tree>)

  /** The type graph seen from `n`, unfolded to depth `fuel`. */
  function Unfold(btf: Types, n: Node, fuel: nat): Tree
    requires Valid(btf) && n.id < |btf|
    decreases fuel, 0
  {
    if n.id == 0 then Void
    else if fuel == 0 then Deeper
    else Tree(Shape(btf[n.id], n.mode), UnfoldAll(btf, Next(btf, n), fuel - 1))
  }

  function UnfoldAll(btf: Types, s: seq<Node>, fuel: nat): (r: seq<Tree>)
    requires Valid(btf) && forall k :: 0 <= k < |s| ==> s[k].id < |btf|
    ensures |r| == |s|
    decreases fuel, |s| + 1
  {
    if s == [] then [] else [Unfold(btf, s[0], fuel)] + UnfoldAll(btf, s[1..], fuel)
  }

  ghost function NewNode(types: set<nat>, n: Node): Node { Node(NewId(types, n.id), n.mode) }

  ghost function NewNodes(types: set<nat>, s: seq<Node>): (r: seq<Node>)
    ensures |r| == |s| && forall k :: 0 <= k < |s| ==> r[k] == NewNode(types, s[k])
  {
    seq(|s|, k requires 0 <= k < |s| => NewNode(types, s[k]))
  }

  lemma FollowedRemap(types: set<nat>, t: BtfType, mode: Mode)
    ensures Followed(Remap(types, t), mode) == NewNodes(types, Followed(t, mode))
    ensures Shape(Remap(types, t), mode) == Shape(t, mode)
  {
  }

  /** A type that was marked keeps everything that its mode of marking sees. */
  lemma KeptAsSeen(src: Types, seen: set<Node>, types: set<nat>, marks: set<(nat, nat)>, n: Node)
    requires Marked(src, seen, types, marks) && n in seen
    ensures n.id < |src|
    ensures Followed(Kept(src, marks, n.id), n.mode) == Followed(src[n.id], n.mode)
    ensures Shape(Kept(src, marks, n.id), n.mode) == Shape(src[n.id], n.mode)
  {
    var t := src[n.id];
    if KeepsMembers(t, n.mode) {
      forall k: nat | k < |t.members| ensures (n.id, k) in marks {
        assert (n.id, k) in MembersOf(src, seen);
      }
      AllMembersKept(marks, n.id, t.members, |t.members|);
      assert t.members[..|t.members|] == t.members;
    }
  }

  lemma NewIdInRange(src: Types, types: set<nat>, marks: set<(nat, nat)>, out: Types, id: nat)
    requires Minimised(src, types, marks, out) && id < |src|
    ensures NewId(types, id) < |out|
  {
    assert id in types ==> NewId(types, id) < |out|;
  }

  /** The graph seen from a marked type, in the mode in which it was marked, is the same in the minimised BTF. */
  lemma {:induction false} UnfoldPreserved(src: Types, seen: set<Node>, types: set<nat>, marks: set<(nat, nat)>,
      out: Types, n: Node, fuel: nat)
    requires Marked(src, seen, types, marks) && Minimised(src, types, marks, out) && Valid(out)
    requires n.id < |src| && (n.id == 0 || n in seen)
    ensures NewId(types, n.id) < |out|
    ensures Unfold(out, NewNode(types, n), fuel) == Unfold(src, n, fuel)
    decreases fuel, 0
  {
    MarkedInRange(src, seen, types, marks, 0);
    NewIdInRange(src, types, marks, out, n.id);
    if n.id != 0 && fuel > 0 {
      assert n.id in types;
      KeptAsSeen(src, seen, types, marks, n);
      FollowedRemap(types, Kept(src, marks, n.id), n.mode);
      var s := Next(src, n);
      assert Next(out, NewNode(types, n)) == NewNodes(types, s);
      UnfoldAllPreserved(src, seen, types, marks, out, s, fuel - 1);
    }
  }

  lemma {:induction false} UnfoldAllPreserved(src: Types, seen: set<Node>, types: set<nat>, marks: set<(nat, nat)>,
      out: Types, s: seq<Node>, fuel: nat)
    requires Marked(src, seen, types, marks) && Minimised(src, types, marks, out) && Valid(out)
    requires forall k :: 0 <= k < |s| ==> s[k].id < |src| && (s[k].id == 0 || s[k] in seen)
    ensures forall k :: 0 <= k < |s| ==> NewId(types, s[k].id) < |out|
    ensures UnfoldAll(out, NewNodes(types, s), fuel) == UnfoldAll(src, s, fuel)
    decreases fuel, |s| + 1
  {
    forall k | 0 <= k < |s| ensures NewId(types, s[k].id) < |out| {
      NewIdInRange(src, types, marks, out, s[k].id);
    }
    if s != [] {
      UnfoldPreserved(src, seen, types, marks, out, s[0], fuel);
      UnfoldAllPreserved(src, seen, types, marks, out, s[1..], fuel);
      assert NewNodes(types, s)[1..] == NewNodes(types, s[1..]);
    }
  }

  // ---------------------------------------------------------------- access paths

  /** What a step of an access path reads from the type graph. */
  datatype Reading =
    | MemberReading(isUnion: bool, typeName: string, size: nat, name: string, bitOffset: nat, bitfieldSize: nat)
    | ElementReading(nelems: nat)
    | NoReading

  function Read(btf: Types, hop: Hop): Reading {
    if hop.at >= |btf| then NoReading
    else match btf[hop.at]
      case Composite(isUnion, name, size, members) =>
        if hop.pos >= |members| then NoReading
        else
          var m := members[hop.pos];
          MemberReading(isUnion, name, size, m.name, m.bitOffset, m.bitfieldSize)
      case Array(_, _, nelems) => ElementReading(nelems)
      case _ => NoReading
  }

  /** The step in the minimised BTF: members are renumbered by their rank among the kept ones. */
  ghost function NewHop(src: Types, types: set<nat>, marks: set<(nat, nat)>, hop: Hop): Hop
    requires hop.at < |src|
  {
    Hop(NewId(types, hop.at),
        if src[hop.at].Composite? then KeptBefore(marks, hop.at, hop.pos) else hop.pos,
        NewId(types, hop.next))
  }

  ghost function NewHops(src: Types, types: set<nat>, marks: set<(nat, nat)>, hops: seq<Hop>): (r: seq<Hop>)
    requires InRange(src, hops)
    ensures |r| == |hops| && forall k :: 0 <= k < |r| ==> r[k] == NewHop(src, types, marks, hops[k])
  {
    seq(|hops|, k requires 0 <= k < |hops| => NewHop(src, types, marks, hops[k]))
  }

  lemma {:induction false} SkipModsPreserved(src: Types, seen: set<Node>, types: set<nat>, marks: set<(nat, nat)>,
      out: Types, id: nat, d: nat)
    requires Marked(src, seen, types, marks) && Minimised(src, types, marks, out)
    requires id < |src| && (id == 0 || Node(id, NoPtr) in seen)
    ensures SkipMods(out, NewId(types, id), d) == NewId(types, SkipMods(src, id, d))
    ensures var at := SkipMods(src, id, d); at < |src| && (at == 0 || Node(at, NoPtr) in seen)
    decreases d
  {
    MarkedInRange(src, seen, types, marks, 0);
    NewIdInRange(src, types, marks, out, id);
    var n := Node(id, NoPtr);
    if id != 0 {
      assert n.id in types;
      assert out[NewId(types, id)] == Remap(types, Kept(src, marks, id));
    }
    if d > 0 && IsModOrTypedef(src[id]) {
      var s := Next(src, n);
      assert |s| == 1 && s[0] == Node(src[id].typ, NoPtr);
      SkipModsPreserved(src, seen, types, marks, out, src[id].typ, d - 1);
    }
  }

  /** Member marks and member types of every step of the path are there. */
  ghost predicate PathMarked(src: Types, seen: set<Node>, marks: set<(nat, nat)>, hops: seq<Hop>) {
    forall k :: 0 <= k < |hops| ==>
      && hops[k].at < |src| && hops[k].next < |src|
      && (src[hops[k].at].Composite? ==>
           && (hops[k].at, hops[k].pos) in marks
           && (hops[k].next == 0 || Node(hops[k].next, NoPtr) in seen))
  }

  /** One step: the copy of the type has the entry, and reads the same. */
  lemma HopPreserved(src: Types, seen: set<Node>, types: set<nat>, marks: set<(nat, nat)>, out: Types, hop: Hop)
    requires Marked(src, seen, types, marks) && Minimised(src, types, marks, out)
    requires hop.at < |src| && hop.at in types && (src[hop.at].Array? || src[hop.at].Composite?)
    requires src[hop.at].Composite? ==> (hop.at, hop.pos) in marks && hop.pos < |src[hop.at].members|
    requires hop.next == NextOf(src, hop.at, hop.pos)
    ensures var h := NewHop(src, types, marks, hop);
      && h.at < |out| && Read(out, h) == Read(src, hop)
      && (out[h.at].Composite? ==> h.pos < |out[h.at].members| && out[h.at].members[h.pos].typ == h.next)
      && (out[h.at].Array? ==> out[h.at].elem == h.next)
      && (out[h.at].Composite? <==> src[hop.at].Composite?) && (out[h.at].Array? <==> src[hop.at].Array?)
  {
    var t := src[hop.at];
    assert out[NewId(types, hop.at)] == Remap(types, Kept(src, marks, hop.at));
    if t.Composite? {
      KeptMemberAt(marks, hop.at, t.members, |t.members|, hop.pos);
    }
  }

  lemma WalkHead(btf: Types, id: nat, raw: seq<nat>, i: nat, d: nat, hops: seq<Hop>)
    requires i < |raw| && Walk(btf, id, raw, i, d) == Some(hops)
    ensures hops != [] && hops[0].at == SkipMods(btf, id, d) && hops[0].at < |btf| && hops[0].pos == raw[i]
    ensures var t := btf[hops[0].at];
      || (t.Array? && hops[0].next == t.elem)
      || (t.Composite? && raw[i] < |t.members| && hops[0].next == t.members[raw[i]].typ)
    ensures Walk(btf, hops[0].next, raw, i + 1, d) == Some(hops[1..])
  {
    assert Onward(hops[0], Walk(btf, hops[0].next, raw, i + 1, d)) == Some(hops);
  }

  lemma WalkCons(btf: Types, id: nat, raw: seq<nat>, i: nat, d: nat, hop: Hop, rest: seq<Hop>)
    requires i < |raw| && hop.at == SkipMods(btf, id, d) && hop.at < |btf| && hop.pos == raw[i]
    requires var t := btf[hop.at];
      || (t.Array? && hop.next == t.elem)
      || (t.Composite? && raw[i] < |t.members| && hop.next == t.members[raw[i]].typ)
    requires Walk(btf, hop.next, raw, i + 1, d) == Some(rest)
    ensures Walk(btf, id, raw, i, d) == Some([hop] + rest)
  {
  }

  /** `newRaw` is the access path `raw` with members renumbered by their rank among the kept ones. */
  ghost predicate Renumbered(src: Types, types: set<nat>, marks: set<(nat, nat)>, raw: seq<nat>, newRaw: seq<nat>,
      i: nat, hops: seq<Hop>)
    requires InRange(src, hops)
  {
    |newRaw| == |raw| == i + |hops| && newRaw[i..] == Positions(NewHops(src, types, marks, hops))
  }

  /** The access path with its positions from `i` on renumbered. */
  ghost function NewRaw(src: Types, types: set<nat>, marks: set<(nat, nat)>, raw: seq<nat>, i: nat,
      hops: seq<Hop>): seq<nat>
    requires InRange(src, hops) && i <= |raw|
  {
    raw[..i] + Positions(NewHops(src, types, marks, hops))
  }

  lemma {:induction false} WalkLength(btf: Types, id: nat, raw: seq<nat>, i: nat, d: nat)
    requires i <= |raw| && Walk(btf, id, raw, i, d).Some?
    ensures |Walk(btf, id, raw, i, d).value| == |raw| - i
    decreases |raw| - i
  {
    if i < |raw| {
      var at := SkipMods(btf, id, d);
      match btf[at]
      case Composite(_, _, _, members) => WalkLength(btf, members[raw[i]].typ, raw, i + 1, d);
      case Array(elem, _, _) => WalkLength(btf, elem, raw, i + 1, d);
    }
  }

  function Positions(hops: seq<Hop>): (r: seq<nat>)
    ensures |r| == |hops| && forall k :: 0 <= k < |r| ==> r[k] == hops[k].pos
  {
    seq(|hops|, k requires 0 <= k < |hops| => hops[k].pos)
  }

  lemma NewHopsCons(src: Types, types: set<nat>, marks: set<(nat, nat)>, hops: seq<Hop>)
    requires InRange(src, hops) && hops != []
    ensures InRange(src, hops[1..])
    ensures NewHops(src, types, marks, hops) ==
      [NewHop(src, types, marks, hops[0])] + NewHops(src, types, marks, hops[1..])
  {
  }

  lemma RenumberedTail(src: Types, types: set<nat>, marks: set<(nat, nat)>, raw: seq<nat>, newRaw: seq<nat>, i: nat,
      hops: seq<Hop>)
    requires InRange(src, hops) && hops != [] && Renumbered(src, types, marks, raw, newRaw, i, hops)
    ensures InRange(src, hops[1..]) && Renumbered(src, types, marks, raw, newRaw, i + 1, hops[1..])
    ensures newRaw[i] == NewHop(src, types, marks, hops[0]).pos
  {
    NewHopsCons(src, types, marks, hops);
    assert newRaw[i..][0] == newRaw[i];
    assert newRaw[i + 1..] == newRaw[i..][1..];
    assert Positions(NewHops(src, types, marks, hops))[1..] == Positions(NewHops(src, types, marks, hops[1..]));
  }

  /**
   * An access path that was recorded leads through the copies of the same types in the minimised BTF,
   * and reads the same member names, offsets and bit-field sizes.
   */
  lemma {:induction false} WalkPreserved(
    src: Types, seen: set<Node>, types: set<nat>, marks: set<(nat, nat)>, out: Types,
    id: nat, raw: seq<nat>, newRaw: seq<nat>, i: nat, d: nat, hops: seq<Hop>)
    requires Marked(src, seen, types, marks) && Minimised(src, types, marks, out)
    requires id < |src| && (id == 0 || Node(id, NoPtr) in seen)
    requires Walk(src, id, raw, i, d) == Some(hops) && PathMarked(src, seen, marks, hops) && InRange(src, hops)
    requires i <= |raw| && Renumbered(src, types, marks, raw, newRaw, i, hops)
    ensures Walk(out, NewId(types, id), newRaw, i, d) == Some(NewHops(src, types, marks, hops))
    ensures forall k :: 0 <= k < |hops| ==> Read(out, NewHop(src, types, marks, hops[k])) == Read(src, hops[k])
    decreases |raw| - i
  {
    if i < |raw| {
      WalkHead(src, id, raw, i, d, hops);
      SkipModsPreserved(src, seen, types, marks, out, id, d);
      var hop, rest := hops[0], hops[1..];
      NextMarked(src, seen, types, marks, hop);
      HopPreserved(src, seen, types, marks, out, hop);
      RenumberedTail(src, types, marks, raw, newRaw, i, hops);
      assert PathMarked(src, seen, marks, rest);
      WalkPreserved(src, seen, types, marks, out, hop.next, raw, newRaw, i + 1, d, rest);
      WalkCons(out, NewId(types, id), newRaw, i, d, NewHop(src, types, marks, hop), NewHops(src, types, marks, rest));
      NewHopsCons(src, types, marks, hops);
      forall k | 0 <= k < |hops| ensures Read(out, NewHop(src, types, marks, hops[k])) == Read(src, hops[k]) {
        if k > 0 {
          assert hops[k] == rest[k - 1];
        }
      }
    }
  }

  /** Every type that a recorded access path leads to is marked. */
  lemma {:induction false} PathSeen(
    src: Types, seen: set<Node>, types: set<nat>, marks: set<(nat, nat)>, out: Types,
    id: nat, raw: seq<nat>, i: nat, d: nat, hops: seq<Hop>)
    requires Marked(src, seen, types, marks) && Minimised(src, types, marks, out)
    requires id < |src| && (id == 0 || Node(id, NoPtr) in seen) && i <= |raw|
    requires Walk(src, id, raw, i, d) == Some(hops) && PathMarked(src, seen, marks, hops) && InRange(src, hops)
    ensures forall k :: 0 <= k < |hops| ==> hops[k].next == 0 || Node(hops[k].next, NoPtr) in seen
    decreases |raw| - i
  {
    if i < |raw| {
      WalkHead(src, id, raw, i, d, hops);
      SkipModsPreserved(src, seen, types, marks, out, id, d);
      var hop, rest := hops[0], hops[1..];
      NextMarked(src, seen, types, marks, hop);
      assert PathMarked(src, seen, marks, rest);
      PathSeen(src, seen, types, marks, out, hop.next, raw, i + 1, d, rest);
      assert forall k :: 0 < k < |hops| ==> hops[k] == rest[k - 1];
    }
  }

  lemma NextMarked(src: Types, seen: set<Node>, types: set<nat>, marks: set<(nat, nat)>, hop: Hop)
    requires Marked(src, seen, types, marks) && hop.at < |src| && (hop.at == 0 || Node(hop.at, NoPtr) in seen)
    requires src[hop.at].Array? || (src[hop.at].Composite? && hop.pos < |src[hop.at].members|)
    requires src[hop.at].Array? ==> hop.next == src[hop.at].elem
    requires src[hop.at].Composite? ==>
      hop.next == src[hop.at].members[hop.pos].typ && (hop.next == 0 || Node(hop.next, NoPtr) in seen)
    ensures hop.at in types && hop.next == NextOf(src, hop.at, hop.pos)
    ensures hop.next == 0 || Node(hop.next, NoPtr) in seen
  {
    var n := Node(hop.at, NoPtr);
    assert n in seen && n.id in types;
    if src[hop.at].Array? {
      assert Next(src, n)[0] == Node(hop.next, NoPtr);
    }
  }

  // ---------------------------------------------------------------- relocations

  /** The graph seen from type `id` is the same to every depth: kinds, names, sizes, encodings, element counts. */
  ghost predicate SameGraph(src: Types, types: set<nat>, out: Types, id: nat, mode: Mode)
    requires Valid(src) && Valid(out) && id < |src|
  {
    && NewId(types, id) < |out|
    && forall fuel :: Unfold(out, Node(NewId(types, id), mode), fuel) == Unfold(src, Node(id, mode), fuel)
  }

  lemma SameIfSeen(
    src: Types, seen: set<Node>, types: set<nat>, marks: set<(nat, nat)>, out: Types, id: nat, mode: Mode)
    requires Marked(src, seen, types, marks) && Minimised(src, types, marks, out) && Valid(out)
    requires id < |src| && (id == 0 || Node(id, mode) in seen)
    ensures SameGraph(src, types, out, id, mode)
  {
    var n := Node(id, mode);
    NewIdInRange(src, types, marks, out, id);
    forall fuel ensures Unfold(out, NewNode(types, n), fuel) == Unfold(src, n, fuel) {
      UnfoldPreserved(src, seen, types, marks, out, n, fuel);
    }
  }

  /**
   * What a relocation reads in the source BTF, it reads in the minimised one: the graph of its root and, for a field,
   * the graphs of all types on the access path, and the members in between.
   */
  ghost predicate Preserved(src: Types, types: set<nat>, marks: set<(nat, nat)>, out: Types, spec: TargSpec, d: nat)
    requires Valid(src) && Valid(out) && spec.rootTypeId < |src| && Accepted(src, spec, d)
  {
    var root := NewId(types, spec.rootTypeId);
    if IsFieldRelo(spec.reloKind) then
      WalkInRange(src, spec.rootTypeId, spec.rawSpec, 1, d);
      var hops := Walk(src, spec.rootTypeId, spec.rawSpec, 1, d).value;
      && SameGraph(src, types, out, spec.rootTypeId, NoPtr)
      && (forall k :: 0 <= k < |hops| ==> SameGraph(src, types, out, hops[k].next, NoPtr))
      && (spec.rawSpec != [] ==>
            Renumbered(src, types, marks, spec.rawSpec, NewRaw(src, types, marks, spec.rawSpec, 1, hops), 1, hops))
      && forall newRaw :: Renumbered(src, types, marks, spec.rawSpec, newRaw, 1, hops) ==>
        && Walk(out, root, newRaw, 1, d) == Some(NewHops(src, types, marks, hops))
        && forall k :: 0 <= k < |hops| ==> Read(out, NewHop(src, types, marks, hops[k])) == Read(src, hops[k])
    else match RootMode(spec.reloKind)
      case Some(mode) => SameGraph(src, types, out, spec.rootTypeId, mode)
      case None => true
  }

  lemma FieldPathMarked(src: Types, seen: set<Node>, marks: set<(nat, nat)>, hops: seq<Hop>, d: nat)
    requires Valid(src) && InRange(src, hops) && AllHopsAccepted(src, hops, d)
    requires HopNodes(src, hops, d) <= seen && HopMembers(src, hops) <= marks
    ensures PathMarked(src, seen, marks, hops)
  {
    forall k | 0 <= k < |hops| && src[hops[k].at].Composite?
      ensures (hops[k].at, hops[k].pos) in marks && (hops[k].next == 0 || Node(hops[k].next, NoPtr) in seen)
    {
      HopNodesMember(src, hops, k, d);
      HopMembersMember(src, hops, k);
      assert HopAccepted(src, hops[k], d);
      VisitTrue(src, Node(hops[k].next, NoPtr), d);
      RootInReach(src, Node(hops[k].next, NoPtr), d);
      assert (hops[k].at, hops[k].pos) in HopMember(src, hops[k]);
    }
  }

  /** Every accepted relocation among those recorded reads the same in the minimised BTF. */
  lemma RelocationPreserved(
    src: Types, seen: set<Node>, types: set<nat>, marks: set<(nat, nat)>, out: Types, spec: TargSpec, d: nat)
    requires Marked(src, seen, types, marks) && Minimised(src, types, marks, out) && Valid(out)
    requires spec.rootTypeId < |src| && Accepted(src, spec, d)
    requires NodesFor(src, spec, d) <= seen && MembersFor(src, spec, d) <= marks
    ensures Preserved(src, types, marks, out, spec, d)
  {
    if IsFieldRelo(spec.reloKind) {
      FieldPreserved(src, seen, types, marks, out, spec, d);
    } else if RootMode(spec.reloKind).Some? {
      var n := Node(spec.rootTypeId, RootMode(spec.reloKind).value);
      VisitTrue(src, n, d);
      RootInReach(src, n, d);
      SameIfSeen(src, seen, types, marks, out, n.id, n.mode);
    }
  }

  lemma FieldPreserved(
    src: Types, seen: set<Node>, types: set<nat>, marks: set<(nat, nat)>, out: Types, spec: TargSpec, d: nat)
    requires Marked(src, seen, types, marks) && Minimised(src, types, marks, out) && Valid(out)
    requires IsFieldRelo(spec.reloKind) && spec.rootTypeId < |src| && Accepted(src, spec, d)
    requires NodesFor(src, spec, d) <= seen && MembersFor(src, spec, d) <= marks
    ensures Preserved(src, types, marks, out, spec, d)
  {
    WalkInRange(src, spec.rootTypeId, spec.rawSpec, 1, d);
    var hops := Walk(src, spec.rootTypeId, spec.rawSpec, 1, d).value;
    FieldPathMarked(src, seen, marks, hops, d);
    VisitTrue(src, Node(spec.rootTypeId, NoPtr), d);
    RootInReach(src, Node(spec.rootTypeId, NoPtr), d);
    SameIfSeen(src, seen, types, marks, out, spec.rootTypeId, NoPtr);
    forall k | 0 <= k < |hops| ensures SameGraph(src, types, out, hops[k].next, NoPtr) {
      if spec.rawSpec != [] {
        PathSeen(src, seen, types, marks, out, spec.rootTypeId, spec.rawSpec, 1, d, hops);
      }
      SameIfSeen(src, seen, types, marks, out, hops[k].next, NoPtr);
    }
    if spec.rawSpec != [] {
      WalkLength(src, spec.rootTypeId, spec.rawSpec, 1, d);
      assert NewRaw(src, types, marks, spec.rawSpec, 1, hops)[1..] == Positions(NewHops(src, types, marks, hops));
    }
    forall newRaw | Renumbered(src, types, marks, spec.rawSpec, newRaw, 1, hops)
      ensures Walk(out, NewId(types, spec.rootTypeId), newRaw, 1, d) == Some(NewHops(src, types, marks, hops))
      ensures forall k :: 0 <= k < |hops| ==> Read(out, NewHop(src, types, marks, hops[k])) == Read(src, hops[k])
    {
      WalkPreserved(src, seen, types, marks, out, spec.rootTypeId, spec.rawSpec, newRaw, 1, d, hops);
    }
  }
}
