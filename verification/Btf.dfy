/** BTF type graphs, and which part of one a recorded relocation keeps. */
module Btf {
  import opened Options

  datatype ScalarKind = Unkn | Int | Float | Enum | Enum64
  datatype RefKind = Ptr | Const | Restrict | Volatile | Typedef | Fwd | Func | Var | DeclTag | TypeTag

  datatype Member = Member(name: string, typ: nat, bitOffset: nat, bitfieldSize: nat)
  datatype Param = Param(name: string, typ: nat)

  /** A type record. Identifiers of other types are positions in the type list; 0 is void. */
  datatype BtfType =
    | Scalar(kind: ScalarKind, name: string, info: seq<int>)
    | Ref(refKind: RefKind, name: string, typ: nat)
    | Array(elem: nat, index: nat, nelems: nat)
    | Composite(isUnion: bool, name: string, size: nat, members: seq<Member>)
    | FuncProto(ret: nat, params: seq<Param>)
    | DataSec(name: string, vars: seq<Param>)

  type Types = seq<BtfType>

  const VOID := Scalar(Unkn, "", [])

  /** All identifiers that a record mentions. */
  function Ids(t: BtfType): seq<nat> {
    match t
    case Scalar(_, _, _) => []
    case Ref(_, _, typ) => [typ]
    case Array(elem, index, _) => [elem, index]
    case Composite(_, _, _, members) => seq(|members|, i requires 0 <= i < |members| => members[i].typ)
    case FuncProto(ret, params) => [ret] + seq(|params|, i requires 0 <= i < |params| => params[i].typ)
    case DataSec(_, vars) => seq(|vars|, i requires 0 <= i < |vars| => vars[i].typ)
  }

  ghost predicate Valid(btf: Types) {
    && |btf| > 0 && btf[0] == VOID
    && (forall i, k :: 0 <= i < |btf| && 0 <= k < |Ids(btf[i])| ==> Ids(btf[i])[k] < |btf|)
    && (forall i :: 0 < i < |btf| ==> !(btf[i].Scalar? && btf[i].kind == Unkn))
    && forall i :: 0 <= i < |btf| && btf[i].Ref? && btf[i].refKind == Fwd ==> btf[i].typ == 0
  }

  // ---------------------------------------------------------------- what marking follows

  /**
   * How a type is marked: by btfgen_mark_type, with pointers left alone or followed, or by
   * btfgen_mark_type_match, before or behind a pointer.
   */
  datatype Mode = NoPtr | FollowPtr | Match(behindPtr: bool)

  datatype Node = Node(id: nat, mode: Mode)

  function Inner(mode: Mode): Mode { if mode.Match? then Match(false) else mode }

  predicate Supported(t: BtfType, mode: Mode) {
    match t
    case Ref(Ptr, _, _) => true
    case Ref(Const, _, _) => true
    case Ref(Restrict, _, _) => true
    case Ref(Volatile, _, _) => true
    case Ref(Typedef, _, _) => true
    case Ref(Fwd, _, _) => mode.Match?
    case Ref(_, _, _) => false
    case DataSec(_, _) => false
    case _ => true
  }

  /** A composite type all of whose members are kept. */
  predicate KeepsMembers(t: BtfType, mode: Mode) { t.Composite? && mode == Match(false) }

  /** The types that marking `t` goes on to, in order. */
  function Followed(t: BtfType, mode: Mode): seq<Node> {
    match t
    case Scalar(_, _, _) => []
    case Ref(Ptr, _, typ) =>
      if mode == NoPtr then []
      else if mode == FollowPtr then [Node(typ, FollowPtr)]
      else [Node(typ, Match(true))]
    case Ref(_, _, typ) => if Supported(t, mode) then [Node(typ, mode)] else []
    case Array(elem, index, _) => [Node(elem, Inner(mode)), Node(index, Inner(mode))]
    case Composite(_, _, _, members) =>
      if mode == Match(false) then seq(|members|, i requires 0 <= i < |members| => Node(members[i].typ, mode))
      else []
    case FuncProto(ret, params) =>
      [Node(ret, Inner(mode))] + seq(|params|, i requires 0 <= i < |params| => Node(params[i].typ, Inner(mode)))
    case DataSec(_, _) => []
  }

  function Next(btf: Types, n: Node): (s: seq<Node>)
    requires Valid(btf) && n.id < |btf|
    ensures forall k :: 0 <= k < |s| ==> s[k].id < |btf|
  {
    FollowedInRange(btf, n);
    Followed(btf[n.id], n.mode)
  }

  lemma FollowedInRange(btf: Types, n: Node)
    requires Valid(btf) && n.id < |btf|
    ensures var s := Followed(btf[n.id], n.mode); forall k :: 0 <= k < |s| ==> s[k].id < |btf|
  {
    var s, ids := Followed(btf[n.id], n.mode), Ids(btf[n.id]);
    forall k | 0 <= k < |s| ensures s[k].id < |btf| {
      assert s[k].id == ids[k];
    }
  }

  /** Marking from `n` nests at most `d` calls deep. */
  ghost predicate Bounded(btf: Types, n: Node, d: nat)
    requires Valid(btf) && n.id < |btf|
    decreases d
  {
    n.id == 0 || (d > 0 && forall k :: 0 <= k < |Next(btf, n)| ==> Bounded(btf, Next(btf, n)[k], d - 1))
  }

  /**
   * What marking from `n` returns when its calls may nest `d` deep: nothing if that is not deep enough, and failure at
   * the first type of a kind that is not supported.
   */
  function Visit(btf: Types, n: Node, d: nat): Option<bool>
    requires Valid(btf) && n.id < |btf|
    decreases d, 0
  {
    if n.id == 0 then Some(true)
    else if d == 0 then None
    else if !Supported(btf[n.id], n.mode) then Some(false)
    else VisitAll(btf, Next(btf, n), d - 1)
  }

  /** Marking one node after the other, up to the first failure. */
  function VisitAll(btf: Types, s: seq<Node>, d: nat): Option<bool>
    requires Valid(btf) && forall k :: 0 <= k < |s| ==> s[k].id < |btf|
    decreases d, |s| + 1
  {
    if s == [] then Some(true)
    else
      var first := Visit(btf, s[0], d);
      if first == Some(true) then VisitAll(btf, s[1..], d) else first
  }

  /** The types that marking from `n` visits. */
  ghost function Reach(btf: Types, n: Node, d: nat): set<Node>
    requires Valid(btf) && n.id < |btf|
    decreases d, 0
  {
    if n.id == 0 || d == 0 then {} else {n} + ReachAll(btf, Next(btf, n), d - 1)
  }

  ghost function ReachAll(btf: Types, s: seq<Node>, d: nat): set<Node>
    requires Valid(btf) && forall k :: 0 <= k < |s| ==> s[k].id < |btf|
    decreases d, |s|
  {
    if s == [] then {} else ReachAll(btf, s[..|s| - 1], d) + Reach(btf, s[|s| - 1], d)
  }

  /** Nothing that marking goes on to from `seen` is outside `seen`, and nothing in it is refused. */
  ghost predicate Closed(btf: Types, seen: set<Node>)
    requires Valid(btf)
  {
    forall n :: n in seen ==>
      && 0 < n.id < |btf| && Supported(btf[n.id], n.mode)
      && forall k :: 0 <= k < |Next(btf, n)| ==> Next(btf, n)[k].id == 0 || Next(btf, n)[k] in seen
  }

  ghost predicate AllSupported(btf: Types, seen: set<Node>) {
    forall n :: n in seen ==> n.id < |btf| && Supported(btf[n.id], n.mode)
  }

  lemma {:induction false} InReachAll(btf: Types, s: seq<Node>, d: nat, k: nat)
    requires Valid(btf) && (forall i :: 0 <= i < |s| ==> s[i].id < |btf|) && k < |s|
    ensures Reach(btf, s[k], d) <= ReachAll(btf, s, d)
    decreases |s|
  {
    if k < |s| - 1 {
      InReachAll(btf, s[..|s| - 1], d, k);
    }
  }

  /** Marking from a root whose call tree is finite closes what it marks. */
  lemma {:induction false} ReachClosed(btf: Types, n: Node, d: nat)
    requires Valid(btf) && n.id < |btf| && Bounded(btf, n, d)
    requires AllSupported(btf, Reach(btf, n, d))
    ensures Closed(btf, Reach(btf, n, d))
    ensures n.id == 0 || n in Reach(btf, n, d)
    decreases d, 0
  {
    if n.id != 0 {
      var s := Next(btf, n);
      ReachAllClosed(btf, s, d - 1);
      forall k | 0 <= k < |s| ensures s[k].id == 0 || s[k] in Reach(btf, n, d) {
        InReachAll(btf, s, d - 1, k);
        RootInReach(btf, s[k], d - 1);
      }
    }
  }

  lemma RootInReach(btf: Types, n: Node, d: nat)
    requires Valid(btf) && n.id < |btf| && Bounded(btf, n, d)
    ensures n.id == 0 || n in Reach(btf, n, d)
  {
  }

  lemma {:induction false} ReachAllClosed(btf: Types, s: seq<Node>, d: nat)
    requires Valid(btf) && forall k :: 0 <= k < |s| ==> s[k].id < |btf| && Bounded(btf, s[k], d)
    requires AllSupported(btf, ReachAll(btf, s, d))
    ensures Closed(btf, ReachAll(btf, s, d))
    decreases d, |s| + 1
  {
    if s != [] {
      ReachAllClosed(btf, s[..|s| - 1], d);
      ReachClosed(btf, s[|s| - 1], d);
    }
  }

  lemma ClosedUnion(btf: Types, a: set<Node>, b: set<Node>)
    requires Valid(btf) && Closed(btf, a) && Closed(btf, b)
    ensures Closed(btf, a + b)
  {
  }

  /** Marking adds nothing that closure does not ask for: `Reach` is the least closed set with the root in it. */
  lemma {:induction false} ReachLeast(btf: Types, n: Node, d: nat, seen: set<Node>)
    requires Valid(btf) && n.id < |btf| && Closed(btf, seen) && (n.id == 0 || n in seen)
    ensures Reach(btf, n, d) <= seen
    decreases d, 0
  {
    if n.id != 0 && d > 0 {
      ReachAllLeast(btf, Next(btf, n), d - 1, seen);
    }
  }

  lemma {:induction false} ReachAllLeast(btf: Types, s: seq<Node>, d: nat, seen: set<Node>)
    requires Valid(btf) && Closed(btf, seen)
    requires forall k :: 0 <= k < |s| ==> s[k].id < |btf| && (s[k].id == 0 || s[k] in seen)
    ensures ReachAll(btf, s, d) <= seen
    decreases d, |s| + 1
  {
    if s != [] {
      ReachAllLeast(btf, s[..|s| - 1], d, seen);
      ReachLeast(btf, s[|s| - 1], d, seen);
    }
  }

  // ---------------------------------------------------------------- what marking returns

  lemma {:induction false} BoundedMore(btf: Types, n: Node, d: nat, d': nat)
    requires Valid(btf) && n.id < |btf| && Bounded(btf, n, d) && d <= d'
    ensures Bounded(btf, n, d')
    decreases d
  {
    if n.id != 0 {
      forall k | 0 <= k < |Next(btf, n)| ensures Bounded(btf, Next(btf, n)[k], d' - 1) {
        BoundedMore(btf, Next(btf, n)[k], d - 1, d' - 1);
      }
    }
  }

  /** Marking succeeds exactly when its whole graph fits into the depth and is supported. */
  lemma {:induction false} VisitTrue(btf: Types, n: Node, d: nat)
    requires Valid(btf) && n.id < |btf|
    ensures Visit(btf, n, d) == Some(true) <==> Bounded(btf, n, d) && AllSupported(btf, Reach(btf, n, d))
    decreases d, 0
  {
    if n.id != 0 && d > 0 {
      VisitAllTrue(btf, Next(btf, n), d - 1);
      assert AllSupported(btf, Reach(btf, n, d)) <==>
        Supported(btf[n.id], n.mode) && AllSupported(btf, ReachAll(btf, Next(btf, n), d - 1)) by {
        assert n in {n};
      }
    }
  }

  lemma {:induction false} VisitAllTrue(btf: Types, s: seq<Node>, d: nat)
    requires Valid(btf) && forall k :: 0 <= k < |s| ==> s[k].id < |btf|
    ensures VisitAll(btf, s, d) == Some(true) <==>
      (forall k :: 0 <= k < |s| ==> Bounded(btf, s[k], d)) && AllSupported(btf, ReachAll(btf, s, d))
    decreases d, |s| + 1
  {
    if s != [] {
      VisitTrue(btf, s[0], d);
      VisitAllTrue(btf, s[1..], d);
      ReachCons(btf, s, d);
      assert forall k :: 0 < k < |s| ==> s[k] == s[1..][k - 1];
    }
  }

  lemma {:induction false} ReachCons(btf: Types, s: seq<Node>, d: nat)
    requires Valid(btf) && |s| > 0 && forall k :: 0 <= k < |s| ==> s[k].id < |btf|
    ensures ReachAll(btf, s, d) == Reach(btf, s[0], d) + ReachAll(btf, s[1..], d)
    decreases |s|
  {
    if |s| > 1 {
      ReachCons(btf, s[..|s| - 1], d);
      assert s[..|s| - 1][1..] == s[1..][..|s| - 2];
    }
  }
}
