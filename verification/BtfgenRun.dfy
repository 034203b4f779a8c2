/** The whole run of the minimiser: what it keeps is what the relocations ask for, and they see what they saw. */
module BtfgenRun {
  import opened Btf
  import opened BtfgenAsks
  import opened BtfgenMark
  import opened BtfgenOutput
  import opened BtfgenTheorems
  import opened Options

  // ---------------------------------------------------------------- objects

  ghost predicate ObjsAccepted(btf: Types, objs: seq<seq<TargSpec>>, d: nat)
    requires Valid(btf)
  {
    forall k :: 0 <= k < |objs| ==> AllAccepted(btf, objs[k], d)
  }

  /** Each object can be recorded, if those before it are accepted. */
  ghost predicate ObjsRecordable(btf: Types, objs: seq<seq<TargSpec>>, d: nat)
    requires Valid(btf)
  {
    forall k :: 0 <= k < |objs| && ObjsAccepted(btf, objs[..k], d) ==> AllRecordable(btf, objs[k], d)
  }

  /** The nodes that all relocations of all objects ask for. */
  ghost function NodesForObjs(btf: Types, objs: seq<seq<TargSpec>>, d: nat): set<Node>
    requires Valid(btf) && ObjsAccepted(btf, objs, d)
  {
    if objs == [] then {}
    else NodesForObjs(btf, objs[..|objs| - 1], d) + NodesForAll(btf, objs[|objs| - 1], d)
  }

  ghost function MembersForObjs(btf: Types, objs: seq<seq<TargSpec>>, d: nat): set<(nat, nat)>
    requires Valid(btf) && ObjsAccepted(btf, objs, d)
  {
    if objs == [] then {}
    else MembersForObjs(btf, objs[..|objs| - 1], d) + MembersForAll(btf, objs[|objs| - 1], d)
  }

  lemma ObjsSnoc(btf: Types, objs: seq<seq<TargSpec>>, specs: seq<TargSpec>, d: nat)
    requires Valid(btf) && ObjsAccepted(btf, objs, d) && AllAccepted(btf, specs, d)
    ensures ObjsAccepted(btf, objs + [specs], d)
    ensures NodesForObjs(btf, objs + [specs], d) == NodesForObjs(btf, objs, d) + NodesForAll(btf, specs, d)
    ensures MembersForObjs(btf, objs + [specs], d) == MembersForObjs(btf, objs, d) + MembersForAll(btf, specs, d)
  {
    assert (objs + [specs])[..|objs|] == objs;
  }

  lemma ObjsNext(btf: Types, objs: seq<seq<TargSpec>>, i: nat, d: nat)
    requires Valid(btf) && i < |objs| && ObjsAccepted(btf, objs[..i], d) && AllAccepted(btf, objs[i], d)
    ensures ObjsAccepted(btf, objs[..i + 1], d)
    ensures NodesForObjs(btf, objs[..i + 1], d) == NodesForObjs(btf, objs[..i], d) + NodesForAll(btf, objs[i], d)
    ensures MembersForObjs(btf, objs[..i + 1], d) == MembersForObjs(btf, objs[..i], d) + MembersForAll(btf, objs[i], d)
  {
    ObjsSnoc(btf, objs[..i], objs[i], d);
    assert objs[..i] + [objs[i]] == objs[..i + 1];
  }

  lemma {:induction false} InObjs(btf: Types, objs: seq<seq<TargSpec>>, k: nat, d: nat)
    requires Valid(btf) && ObjsAccepted(btf, objs, d) && k < |objs|
    ensures NodesForAll(btf, objs[k], d) <= NodesForObjs(btf, objs, d)
    ensures MembersForAll(btf, objs[k], d) <= MembersForObjs(btf, objs, d)
    decreases |objs|
  {
    if k < |objs| - 1 {
      InObjs(btf, objs[..|objs| - 1], k, d);
    }
  }

  /** The types and members that are kept: what the relocations ask for, and no more. */
  ghost function TypesKept(src: Types, objs: seq<seq<TargSpec>>, d: nat): set<nat>
    requires Valid(src) && ObjsAccepted(src, objs, d)
  {
    IdsOf(NodesForObjs(src, objs, d))
  }

  // ---------------------------------------------------------------- what is kept

  /** Some relocation of some object asks for node `n`. */
  ghost predicate SomeAsks(src: Types, objs: seq<seq<TargSpec>>, n: Node) {
    exists k, m :: 0 <= k < |objs| && 0 <= m < |objs[k]| && Asks(src, objs[k][m], n)
  }

  ghost predicate SomeAsksMember(src: Types, objs: seq<seq<TargSpec>>, i: nat, j: nat) {
    exists k, m :: 0 <= k < |objs| && 0 <= m < |objs[k]| && AsksMember(src, objs[k][m], i, j)
  }

  lemma {:induction false} InSpecs(btf: Types, specs: seq<TargSpec>, d: nat, n: Node) returns (m: nat)
    requires Valid(btf) && AllAccepted(btf, specs, d) && n in NodesForAll(btf, specs, d)
    ensures m < |specs| && n in NodesFor(btf, specs[m], d)
    decreases |specs|
  {
    if n in NodesFor(btf, specs[|specs| - 1], d) {
      m := |specs| - 1;
    } else {
      m := InSpecs(btf, specs[..|specs| - 1], d, n);
    }
  }

  lemma {:induction false} InSpecMembers(btf: Types, specs: seq<TargSpec>, d: nat, e: (nat, nat)) returns (m: nat)
    requires Valid(btf) && AllAccepted(btf, specs, d) && e in MembersForAll(btf, specs, d)
    ensures m < |specs| && e in MembersFor(btf, specs[m], d)
    decreases |specs|
  {
    if e in MembersFor(btf, specs[|specs| - 1], d) {
      m := |specs| - 1;
    } else {
      m := InSpecMembers(btf, specs[..|specs| - 1], d, e);
    }
  }

  lemma {:induction false} NodesAsked(src: Types, objs: seq<seq<TargSpec>>, d: nat, n: Node)
    requires Valid(src) && ObjsAccepted(src, objs, d)
    ensures n in NodesForObjs(src, objs, d) <==> SomeAsks(src, objs, n)
    decreases |objs|
  {
    if n in NodesForObjs(src, objs, d) {
      if n in NodesForAll(src, objs[|objs| - 1], d) {
        var m := InSpecs(src, objs[|objs| - 1], d, n);
        MarksAsked(src, objs[|objs| - 1][m], d, n);
      } else {
        NodesAsked(src, objs[..|objs| - 1], d, n);
      }
    }
    if k, m :| 0 <= k < |objs| && 0 <= m < |objs[k]| && Asks(src, objs[k][m], n) {
      MarksAsked(src, objs[k][m], d, n);
      InForAll(src, objs[k], m, d);
      InObjs(src, objs, k, d);
    }
  }

  lemma {:induction false} MembersAsked(src: Types, objs: seq<seq<TargSpec>>, d: nat, i: nat, j: nat)
    requires Valid(src) && ObjsAccepted(src, objs, d)
    ensures (i, j) in MembersForObjs(src, objs, d) <==> SomeAsksMember(src, objs, i, j)
    decreases |objs|
  {
    if (i, j) in MembersForObjs(src, objs, d) {
      if (i, j) in MembersForAll(src, objs[|objs| - 1], d) {
        var m := InSpecMembers(src, objs[|objs| - 1], d, (i, j));
        MarksAskedMembers(src, objs[|objs| - 1][m], d, i, j);
      } else {
        MembersAsked(src, objs[..|objs| - 1], d, i, j);
      }
    }
    if k, m :| 0 <= k < |objs| && 0 <= m < |objs[k]| && AsksMember(src, objs[k][m], i, j) {
      MarksAskedMembers(src, objs[k][m], d, i, j);
      InForAll(src, objs[k], m, d);
      InObjs(src, objs, k, d);
    }
  }

  /** The types that are kept are exactly those that some relocation asks for, and so are the members. */
  lemma KeptIffAsked(src: Types, objs: seq<seq<TargSpec>>, d: nat, id: nat)
    requires Valid(src) && ObjsAccepted(src, objs, d)
    ensures id in TypesKept(src, objs, d) <==> exists mode :: SomeAsks(src, objs, Node(id, mode))
  {
    if id in TypesKept(src, objs, d) {
      var n :| n in NodesForObjs(src, objs, d) && n.id == id;
      NodesAsked(src, objs, d, n);
      assert SomeAsks(src, objs, Node(id, n.mode));
    }
    if mode :| SomeAsks(src, objs, Node(id, mode)) {
      NodesAsked(src, objs, d, Node(id, mode));
    }
  }

  /** If type `id` is a pointer, its copy points to the copy of what it points to, and to void only if it did. */
  ghost predicate PointerStays(src: Types, types: set<nat>, out: Types, id: nat)
    requires id < |src|
  {
    src[id].Ref? && src[id].refKind == Ptr ==>
      && NewId(types, id) < |out| && out[NewId(types, id)] == Ref(Ptr, src[id].name, NewId(types, src[id].typ))
      && (NewId(types, src[id].typ) == 0 <==> src[id].typ == 0)
  }

  /**
   * What the user of a relocation relies on. About a type: it is there, and no pointer that it leads to loses its
   * target. For matching: also, if it is a structure, it is there with all its members.
   */
  ghost predicate Serves(src: Types, types: set<nat>, marks: set<(nat, nat)>, out: Types, spec: TargSpec) {
    var id := spec.rootTypeId;
    && (spec.reloKind in {TypeIdTarget, TypeExists, TypeSize} ==>
          && (id == 0 || id in types)
          && forall n :: Needs(src, Node(id, FollowPtr), n) ==>
               n.id < |src| && n.id in types && PointerStays(src, types, out, n.id))
    && (spec.reloKind == TypeMatches && 0 < id < |src| ==>
          && id in types
          && (src[id].Composite? ==> forall j :: 0 <= j < |src[id].members| ==>
               (id, j) in marks && (src[id].members[j].typ == 0 || src[id].members[j].typ in types)))
    && (spec.reloKind in {EnumvalExists, EnumvalValue} ==> id == 0 || id in types)
  }

  /** What a relocation asks for is kept. */
  lemma AskedKept(src: Types, objs: seq<seq<TargSpec>>, d: nat, k: nat, m: nat, n: Node)
    requires Valid(src) && ObjsAccepted(src, objs, d) && k < |objs| && m < |objs[k]| && Asks(src, objs[k][m], n)
    ensures n.id in TypesKept(src, objs, d)
  {
    assert SomeAsks(src, objs, Node(n.id, n.mode));
    KeptIffAsked(src, objs, d, n.id);
  }

  lemma RootKept(src: Types, objs: seq<seq<TargSpec>>, d: nat, k: nat, m: nat, mode: Mode)
    requires Valid(src) && ObjsAccepted(src, objs, d) && k < |objs| && m < |objs[k]|
    requires var spec := objs[k][m]; forall n :: Needs(src, Node(spec.rootTypeId, mode), n) ==> Asks(src, spec, n)
    ensures var id := objs[k][m].rootTypeId; id == 0 || (id < |src| && id in TypesKept(src, objs, d))
  {
    assert AllAccepted(src, objs[k], d);
    var root := Node(objs[k][m].rootTypeId, mode);
    if root.id != 0 {
      assert IsChain(src, [root]) && Needs(src, root, root);
      AskedKept(src, objs, d, k, m, root);
    }
  }

  lemma PointerServed(src: Types, objs: seq<seq<TargSpec>>, types: set<nat>, marks: set<(nat, nat)>, out: Types,
      d: nat, k: nat, m: nat, n: Node)
    requires Valid(src) && ObjsAccepted(src, objs, d) && types == TypesKept(src, objs, d)
    requires Minimised(src, types, marks, out) && k < |objs| && m < |objs[k]|
    requires var spec := objs[k][m];
      && spec.reloKind in {TypeIdTarget, TypeExists, TypeSize}
      && Needs(src, Node(spec.rootTypeId, FollowPtr), n)
    ensures n.id < |src| && n.id in types && PointerStays(src, types, out, n.id)
  {
    AskedKept(src, objs, d, k, m, n);
    VoidNotKept(src, objs, d);
    if src[n.id].Ref? && src[n.id].refKind == Ptr && src[n.id].typ != 0 {
      var to := TargetNeeded(src, Node(objs[k][m].rootTypeId, FollowPtr), n);
      AskedKept(src, objs, d, k, m, to);
    }
    PointerCopied(src, types, marks, out, n.id);
  }

  lemma PointerCopied(src: Types, types: set<nat>, marks: set<(nat, nat)>, out: Types, id: nat)
    requires Minimised(src, types, marks, out) && id < |src| && id in types && 0 !in types
    requires src[id].Ref? && src[id].refKind == Ptr ==> src[id].typ == 0 || src[id].typ in types
    ensures PointerStays(src, types, out, id)
  {
    assert out[NewId(types, id)] == Remap(types, Kept(src, marks, id));
  }

  lemma VoidNotKept(src: Types, objs: seq<seq<TargSpec>>, d: nat)
    requires Valid(src) && ObjsAccepted(src, objs, d)
    ensures 0 !in TypesKept(src, objs, d)
  {
    KeptIffAsked(src, objs, d, 0);
    if 0 in TypesKept(src, objs, d) {
      var mode :| SomeAsks(src, objs, Node(0, mode));
      var k, m :| 0 <= k < |objs| && 0 <= m < |objs[k]| && Asks(src, objs[k][m], Node(0, mode));
      AsksNoVoid(src, objs[k][m], mode);
    }
  }

  lemma AsksNoVoid(src: Types, spec: TargSpec, mode: Mode)
    ensures !Asks(src, spec, Node(0, mode))
  {
  }

  /** Where pointers are followed, the target of a needed pointer is needed. */
  lemma TargetNeeded(src: Types, root: Node, n: Node) returns (to: Node)
    requires Valid(src) && root.mode == FollowPtr && Needs(src, root, n)
    requires src[n.id].Ref? && src[n.id].refKind == Ptr && src[n.id].typ != 0
    ensures to.id == src[n.id].typ && Needs(src, root, to)
  {
    var c :| IsChain(src, c) && c[0] == root && c[|c| - 1] == n;
    ChainMode(src, c, |c| - 1);
    to := Node(src[n.id].typ, FollowPtr);
    assert Ids(src[n.id])[0] == to.id;
    var longer := c + [to];
    assert IsChain(src, longer) && longer[0] == root && longer[|longer| - 1] == to;
  }

  lemma {:induction false} ChainMode(btf: Types, c: seq<Node>, i: nat)
    requires IsChain(btf, c) && i < |c| && c[0].mode == FollowPtr
    ensures c[i].mode == FollowPtr
  {
    if i > 0 {
      ChainMode(btf, c, i - 1);
      assert Leads(btf[c[i - 1].id], c[i - 1].mode, c[i]);
    }
  }

  lemma MembersServed(src: Types, objs: seq<seq<TargSpec>>, d: nat, k: nat, m: nat, j: nat)
    requires Valid(src) && ObjsAccepted(src, objs, d) && k < |objs| && m < |objs[k]|
    requires var spec := objs[k][m]; var id := spec.rootTypeId;
      spec.reloKind == TypeMatches && 0 < id < |src| && src[id].Composite? && j < |src[id].members|
    ensures var id := objs[k][m].rootTypeId; var typ := src[id].members[j].typ;
      (id, j) in MembersForObjs(src, objs, d) && (typ == 0 || typ in TypesKept(src, objs, d))
  {
    var spec := objs[k][m];
    var root := Node(spec.rootTypeId, Match(false));
    assert IsChain(src, [root]) && Needs(src, root, root);
    assert AsksMember(src, spec, root.id, j) && SomeAsksMember(src, objs, root.id, j);
    MembersAsked(src, objs, d, root.id, j);
    var to := Node(src[root.id].members[j].typ, Match(false));
    if to.id != 0 {
      assert Ids(src[root.id])[j] == to.id;
      assert IsChain(src, [root, to]) && Needs(src, root, to);
      AskedKept(src, objs, d, k, m, to);
    }
  }

  /** Every relocation of every object is served. */
  lemma TypesServed(src: Types, objs: seq<seq<TargSpec>>, types: set<nat>, marks: set<(nat, nat)>, out: Types, d: nat,
      k: nat, m: nat)
    requires Valid(src) && ObjsAccepted(src, objs, d) && types == TypesKept(src, objs, d)
    requires Minimised(src, types, marks, out) && marks == MembersForObjs(src, objs, d)
    requires k < |objs| && m < |objs[k]|
    ensures Serves(src, types, marks, out, objs[k][m])
  {
    var spec := objs[k][m];
    var id := spec.rootTypeId;
    if spec.reloKind in {TypeIdTarget, TypeExists, TypeSize} {
      RootKept(src, objs, d, k, m, FollowPtr);
      forall n | Needs(src, Node(id, FollowPtr), n)
        ensures n.id < |src| && n.id in types && PointerStays(src, types, out, n.id)
      {
        PointerServed(src, objs, types, marks, out, d, k, m, n);
      }
    } else if spec.reloKind == TypeMatches {
      RootKept(src, objs, d, k, m, Match(false));
      if 0 < id < |src| && src[id].Composite? {
        forall j: nat | j < |src[id].members|
          ensures (id, j) in marks && (src[id].members[j].typ == 0 || src[id].members[j].typ in types)
        {
          MembersServed(src, objs, d, k, m, j);
        }
      }
    } else if spec.reloKind in {EnumvalExists, EnumvalValue} {
      RootKept(src, objs, d, k, m, NoPtr);
    }
  }

  // ---------------------------------------------------------------- the run

  /**
   * Minimises `src` for a list of objects, each given by the targets of its relocations. The result is
   * made of exactly what the relocations ask for, and every relocation reads in it what it read before.
   */
  method MinimizeBtf(src: Types, objs: seq<seq<TargSpec>>, ghost d: nat) returns (r: Option<Types>)
    requires Valid(src) && ObjsRecordable(src, objs, d)
    ensures r.Some? <==>
      ObjsAccepted(src, objs, d) && FieldsOk(src, TypesKept(src, objs, d), MembersForObjs(src, objs, d), |src|)
    ensures r.Some? ==> Valid(r.value) && Minimised(src, TypesKept(src, objs, d), MembersForObjs(src, objs, d), r.value)
    ensures r.Some? ==> forall k, m :: 0 <= k < |objs| && 0 <= m < |objs[k]| ==>
      && AllAccepted(src, objs[k], d)
      && Preserved(src, TypesKept(src, objs, d), MembersForObjs(src, objs, d), r.value, objs[k][m], d)
      && Serves(src, TypesKept(src, objs, d), MembersForObjs(src, objs, d), r.value, objs[k][m])
  {
    var info := new BtfgenInfo(src);
    var i := 0;
    while i < |objs|
      invariant 0 <= i <= |objs| && info.Inv() && info.srcBtf == src && fresh(info)
      invariant ObjsAccepted(src, objs[..i], d)
      invariant info.seen == NodesForObjs(src, objs[..i], d) && info.memberMarks == MembersForObjs(src, objs[..i], d)
    {
      var ok := info.RecordObj(objs[i], d);
      if !ok {
        return None;
      }
      ObjsNext(src, objs, i, d);
      i := i + 1;
    }
    assert objs[..i] == objs;
    r := GetBtf(info);
    if r.Some? {
      AllPreserved(src, objs, info.typeMarks, info.memberMarks, r.value, d);
      AllServed(src, objs, info.typeMarks, info.memberMarks, r.value, d);
    }
  }

  lemma AllPreserved(src: Types, objs: seq<seq<TargSpec>>, types: set<nat>, marks: set<(nat, nat)>, out: Types, d: nat)
    requires Valid(src) && ObjsAccepted(src, objs, d)
    requires Marked(src, NodesForObjs(src, objs, d), types, marks) && marks == MembersForObjs(src, objs, d)
    requires Minimised(src, types, marks, out)
    ensures Valid(out)
    ensures forall k, m :: 0 <= k < |objs| && 0 <= m < |objs[k]| ==>
      AllAccepted(src, objs[k], d) && Preserved(src, types, marks, out, objs[k][m], d)
  {
    OutputValid(src, NodesForObjs(src, objs, d), types, marks, out);
    forall k, m | 0 <= k < |objs| && 0 <= m < |objs[k]|
      ensures AllAccepted(src, objs[k], d) && Preserved(src, types, marks, out, objs[k][m], d)
    {
      InObjs(src, objs, k, d);
      InForAll(src, objs[k], m, d);
      RelocationPreserved(src, NodesForObjs(src, objs, d), types, marks, out, objs[k][m], d);
    }
  }

  lemma AllServed(src: Types, objs: seq<seq<TargSpec>>, types: set<nat>, marks: set<(nat, nat)>, out: Types, d: nat)
    requires Valid(src) && ObjsAccepted(src, objs, d) && types == TypesKept(src, objs, d)
    requires Minimised(src, types, marks, out) && marks == MembersForObjs(src, objs, d)
    ensures forall k, m :: 0 <= k < |objs| && 0 <= m < |objs[k]| ==> Serves(src, types, marks, out, objs[k][m])
  {
    forall k, m | 0 <= k < |objs| && 0 <= m < |objs[k]| ensures Serves(src, types, marks, out, objs[k][m]) {
      TypesServed(src, objs, types, marks, out, d, k, m);
    }
  }
}
