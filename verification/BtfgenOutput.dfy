/** Building the minimised BTF from the marks, and what it still says about the source BTF. */
module BtfgenOutput {
  import opened Btf
  import opened BtfgenMark
  import opened Options

  // ---------------------------------------------------------------- renumbering

  /** How many marked types have identifiers below `i`. */
  ghost function CountBelow(types: set<nat>, i: nat): nat {
    if i == 0 then 0 else CountBelow(types, i - 1) + if i - 1 in types then 1 else 0
  }

  /** The identifier of the copy of type `i`; types without a copy become void. */
  ghost function NewId(types: set<nat>, i: nat): nat {
    if i in types then 1 + CountBelow(types, i) else 0
  }

  lemma {:induction false} CountMonotone(types: set<nat>, i: nat, j: nat)
    requires i <= j
    ensures CountBelow(types, i) <= CountBelow(types, j)
    ensures i < j && i in types ==> CountBelow(types, i) < CountBelow(types, j)
    decreases j
  {
    if i < j {
      CountMonotone(types, i, j - 1);
    }
  }

  /** The identifier map is strictly increasing on marked types, so no two of them share a copy. */
  lemma NewIdIncreasing(types: set<nat>, i: nat, j: nat)
    requires i in types && j in types && i < j
    ensures 0 < NewId(types, i) < NewId(types, j)
  {
    CountMonotone(types, i, j);
  }

  ghost function RemapMembers(types: set<nat>, members: seq<Member>): (r: seq<Member>)
    ensures |r| == |members| && forall k :: 0 <= k < |r| ==> r[k] == members[k].(typ := NewId(types, members[k].typ))
  {
    seq(|members|, k requires 0 <= k < |members| => members[k].(typ := NewId(types, members[k].typ)))
  }

  ghost function RemapParams(types: set<nat>, params: seq<Param>): (r: seq<Param>)
    ensures |r| == |params| && forall k :: 0 <= k < |r| ==> r[k] == params[k].(typ := NewId(types, params[k].typ))
  {
    seq(|params|, k requires 0 <= k < |params| => params[k].(typ := NewId(types, params[k].typ)))
  }

  /** A record with all its identifiers renumbered. */
  ghost function Remap(types: set<nat>, t: BtfType): BtfType {
    match t
    case Scalar(_, _, _) => t
    case Ref(kind, name, typ) => Ref(kind, name, NewId(types, typ))
    case Array(elem, index, nelems) => Array(NewId(types, elem), NewId(types, index), nelems)
    case Composite(isUnion, name, size, members) => Composite(isUnion, name, size, RemapMembers(types, members))
    case FuncProto(ret, params) => FuncProto(NewId(types, ret), RemapParams(types, params))
    case DataSec(name, vars) => DataSec(name, RemapParams(types, vars))
  }

  // ---------------------------------------------------------------- kept members

  /** How many of the first `n` members of type `id` are marked. */
  ghost function KeptBefore(marks: set<(nat, nat)>, id: nat, n: nat): nat {
    if n == 0 then 0 else KeptBefore(marks, id, n - 1) + if (id, n - 1) in marks then 1 else 0
  }

  /** The marked ones among the first `n` members of type `id`. */
  ghost function KeptMembers(marks: set<(nat, nat)>, id: nat, members: seq<Member>, n: nat): (r: seq<Member>)
    requires n <= |members|
    ensures |r| == KeptBefore(marks, id, n)
  {
    if n == 0 then []
    else KeptMembers(marks, id, members, n - 1) + if (id, n - 1) in marks then [members[n - 1]] else []
  }

  lemma {:induction false} KeptMemberAt(marks: set<(nat, nat)>, id: nat, members: seq<Member>, n: nat, k: nat)
    requires k < n <= |members| && (id, k) in marks
    ensures KeptBefore(marks, id, k) < KeptBefore(marks, id, n)
    ensures KeptMembers(marks, id, members, n)[KeptBefore(marks, id, k)] == members[k]
    decreases n
  {
    if k < n - 1 {
      KeptMemberAt(marks, id, members, n - 1, k);
    }
  }

  lemma {:induction false} AllMembersKept(marks: set<(nat, nat)>, id: nat, members: seq<Member>, n: nat)
    requires n <= |members| && forall k: nat :: k < n ==> (id, k) in marks
    ensures KeptMembers(marks, id, members, n) == members[..n]
    decreases n
  {
    if n > 0 {
      AllMembersKept(marks, id, members, n - 1);
    }
  }

  lemma {:induction false} KeptMembersFrom(marks: set<(nat, nat)>, id: nat, members: seq<Member>, n: nat, j: nat)
      returns (k: nat)
    requires n <= |members| && j < KeptBefore(marks, id, n)
    ensures k < n && (id, k) in marks && KeptBefore(marks, id, k) == j
    ensures KeptMembers(marks, id, members, n)[j] == members[k]
    decreases n
  {
    if (id, n - 1) in marks && j == KeptBefore(marks, id, n - 1) {
      k := n - 1;
    } else {
      k := KeptMembersFrom(marks, id, members, n - 1, j);
    }
  }

  /** The copy of type `id` before renumbering. */
  ghost function Kept(btf: Types, marks: set<(nat, nat)>, id: nat): BtfType
    requires id < |btf|
  {
    match btf[id]
    case Composite(isUnion, name, size, members) =>
      Composite(isUnion, name, size, KeptMembers(marks, id, members, |members|))
    case _ => btf[id]
  }

  /** `out` consists of the renumbered copies of the marked types, in order. */
  ghost predicate Minimised(src: Types, types: set<nat>, marks: set<(nat, nat)>, out: Types) {
    && |out| == 1 + CountBelow(types, |src|) && out[0] == VOID
    && forall i :: i in types && i < |src| ==>
         NewId(types, i) < |out| && out[NewId(types, i)] == Remap(types, Kept(src, marks, i))
  }

  // ---------------------------------------------------------------- building

  /** What btf__add_field accepts. */
  predicate FieldOk(isUnion: bool, m: Member) {
    && (m.bitfieldSize != 0 || m.bitOffset % 8 != 0 ==> 0 < m.bitfieldSize <= 255 && m.bitOffset <= 0xffffff)
    && (isUnion ==> m.bitOffset == 0)
  }

  /**
   * A member is accepted exactly when its offset can be recorded: a plain one must be whole bytes, and that of a bit
   * field shares a 32-bit word with its size, in the lower 24 bits. Members of unions are at 0.
   */
  lemma FieldOkIff(isUnion: bool, m: Member)
    ensures FieldOk(isUnion, m) <==>
      && (isUnion ==> m.bitOffset == 0)
      && if m.bitfieldSize == 0 then m.bitOffset % 8 == 0
         else
           var word := m.bitOffset + 0x100_0000 * m.bitfieldSize;
           word < 0x1_0000_0000 && word % 0x100_0000 == m.bitOffset && word / 0x100_0000 == m.bitfieldSize
  {
  }

  ghost predicate FieldsOk(src: Types, types: set<nat>, marks: set<(nat, nat)>, n: nat) {
    forall i, k ::
      i in types && i < n && i < |src| && src[i].Composite? && 0 <= k < |src[i].members| && (i, k) in marks ==>
      FieldOk(src[i].isUnion, src[i].members[k])
  }

  /** Copies the marked members of a struct or union. */
  method AddMembers(src: Types, i: nat, marks: set<(nat, nat)>) returns (ok: bool, t: BtfType)
    requires i < |src| && src[i].Composite?
    ensures ok <==> forall k :: 0 <= k < |src[i].members| && (i, k) in marks ==>
      FieldOk(src[i].isUnion, src[i].members[k])
    ensures ok ==> t == Kept(src, marks, i)
  {
    var members := src[i].members;
    t := Composite(src[i].isUnion, src[i].name, src[i].size, []);
    var idx := 0;
    while idx < |members|
      invariant 0 <= idx <= |members|
      invariant t == Composite(src[i].isUnion, src[i].name, src[i].size, KeptMembers(marks, i, members, idx))
      invariant forall k :: 0 <= k < idx && (i, k) in marks ==> FieldOk(src[i].isUnion, members[k])
    {
      if (i, idx) in marks {
        if !FieldOk(t.isUnion, members[idx]) {
          return false, t;
        }
        t := t.(members := t.members + [members[idx]]);
      }
      idx := idx + 1;
    }
    ok := true;
  }

  /** The first pass: copies in order, and the identifier map. */
  method CopyMarked(src: Types, types: set<nat>, marks: set<(nat, nat)>, ids: array<nat>) returns (ok: bool, out: Types)
    requires |src| == ids.Length && |src| > 0 && 0 !in types
    requires forall i :: 0 <= i < ids.Length ==> ids[i] == 0
    modifies ids
    ensures ok <==> FieldsOk(src, types, marks, |src|)
    ensures ok ==> |out| == 1 + CountBelow(types, |src|) && out[0] == VOID
    ensures ok ==> forall i :: 0 <= i < |src| ==> ids[i] == NewId(types, i)
    ensures ok ==> forall i :: i in types && i < |src| ==>
      NewId(types, i) < |out| && out[NewId(types, i)] == Kept(src, marks, i)
  {
    out := [VOID];
    var i := 1;
    while i < |src|
      invariant 1 <= i <= |src|
      invariant |out| == 1 + CountBelow(types, i) && out[0] == VOID
      invariant forall k :: 0 <= k < |src| ==> ids[k] == if k < i then NewId(types, k) else 0
      invariant forall k :: k in types && k < i ==>
        NewId(types, k) < |out| && out[NewId(types, k)] == Kept(src, marks, k)
      invariant FieldsOk(src, types, marks, i)
    {
      if i in types {
        var t := src[i];
        if t.Composite? {
          ok, t := AddMembers(src, i, marks);
          if !ok {
            return;
          }
        }
        out := out + [t];
        ids[i] := |out| - 1;
      }
      i := i + 1;
    }
    ok := true;
  }

  /** The array holds the identifier map. */
  ghost predicate IdMap(ids: array<nat>, types: set<nat>)
    reads ids
  {
    forall i :: 0 <= i < ids.Length ==> ids[i] == NewId(types, i)
  }

  method VisitParams(params: seq<Param>, ids: array<nat>, ghost types: set<nat>) returns (r: seq<Param>)
    requires IdMap(ids, types) && forall k :: 0 <= k < |params| ==> params[k].typ < ids.Length
    ensures r == RemapParams(types, params)
  {
    r := params;
    var k := 0;
    while k < |r|
      invariant 0 <= k <= |r| == |params|
      invariant forall m :: 0 <= m < |r| ==>
        r[m] == if m < k then params[m].(typ := NewId(types, params[m].typ)) else params[m]
    {
      r := r[k := r[k].(typ := ids[r[k].typ])];
      k := k + 1;
    }
  }

  method VisitMembers(members: seq<Member>, ids: array<nat>, ghost types: set<nat>) returns (r: seq<Member>)
    requires IdMap(ids, types) && forall k :: 0 <= k < |members| ==> members[k].typ < ids.Length
    ensures r == RemapMembers(types, members)
  {
    r := members;
    var k := 0;
    while k < |r|
      invariant 0 <= k <= |r| == |members|
      invariant forall m :: 0 <= m < |r| ==>
        r[m] == if m < k then members[m].(typ := NewId(types, members[m].typ)) else members[m]
    {
      r := r[k := r[k].(typ := ids[r[k].typ])];
      k := k + 1;
    }
  }

  /** Renumbers the identifiers of a record; only a record of unknown kind is refused. */
  method VisitTypeIds(t: BtfType, ids: array<nat>, ghost types: set<nat>) returns (ok: bool, r: BtfType)
    requires IdMap(ids, types) && forall k :: 0 <= k < |Ids(t)| ==> Ids(t)[k] < ids.Length
    ensures ok <==> !(t.Scalar? && t.kind == Unkn)
    ensures ok ==> r == Remap(types, t)
  {
    ok, r := true, t;
    ghost var s := Ids(t);
    match t {
      case Scalar(kind, _, _) =>
        ok := kind != Unkn;
      case Ref(kind, name, typ) =>
        assert s[0] == typ;
        r := Ref(kind, name, ids[typ]);
      case Array(elem, index, nelems) =>
        assert s[0] == elem && s[1] == index;
        r := Array(ids[elem], ids[index], nelems);
      case Composite(isUnion, name, size, members) =>
        assert forall k :: 0 <= k < |members| ==> members[k].typ == s[k];
        var members' := VisitMembers(members, ids, types);
        r := Composite(isUnion, name, size, members');
      case FuncProto(ret, params) =>
        assert s[0] == ret && forall k :: 0 <= k < |params| ==> params[k].typ == s[k + 1];
        var params' := VisitParams(params, ids, types);
        r := FuncProto(ids[ret], params');
      case DataSec(name, vars) =>
        assert forall k :: 0 <= k < |vars| ==> vars[k].typ == s[k];
        var vars' := VisitParams(vars, ids, types);
        r := DataSec(name, vars');
    }
  }

  lemma KeptIdsInRange(src: Types, marks: set<(nat, nat)>, i: nat, k: nat)
    requires Valid(src) && 0 < i < |src| && k < |Ids(Kept(src, marks, i))|
    ensures Ids(Kept(src, marks, i))[k] < |src|
  {
    var t := src[i];
    if t.Composite? {
      var m := KeptMembersFrom(marks, i, t.members, |t.members|, k);
      assert Ids(t)[m] == t.members[m].typ;
    } else {
      assert Ids(t)[k] < |src|;
    }
  }

  /** The copy at position `j` of the new type list is that of some marked type. */
  lemma {:induction false} CopyOf(types: set<nat>, n: nat, j: nat) returns (i: nat)
    requires 0 < j <= CountBelow(types, n)
    ensures i < n && i in types && NewId(types, i) == j
  {
    if n - 1 in types && j == CountBelow(types, n) {
      i := n - 1;
    } else {
      i := CopyOf(types, n - 1, j);
    }
  }

  /** The minimised BTF is determined by the source and the marks. */
  lemma MinimisedUnique(src: Types, types: set<nat>, marks: set<(nat, nat)>, out: Types, out': Types)
    requires Minimised(src, types, marks, out) && Minimised(src, types, marks, out')
    ensures out == out'
  {
    forall j | 0 < j < |out| ensures out[j] == out'[j] {
      var i := CopyOf(types, |src|, j);
      assert out[NewId(types, i)] == out'[NewId(types, i)];
    }
  }

  /** The second pass: renumbers the copies in place. */
  method FixIds(src: Types, types: set<nat>, marks: set<(nat, nat)>, ids: array<nat>, copies: Types)
      returns (ok: bool, out: Types)
    requires Valid(src) && ids.Length == |src| && IdMap(ids, types) && 0 !in types
    requires |copies| == 1 + CountBelow(types, |src|) && copies[0] == VOID
    requires forall i :: i in types && i < |src| ==>
      NewId(types, i) < |copies| && copies[NewId(types, i)] == Kept(src, marks, i)
    ensures ok && Minimised(src, types, marks, out)
  {
    out := copies;
    var j := 1;
    while j < |out|
      invariant 1 <= j <= |out| == |copies| && out[0] == VOID
      invariant forall m :: 0 < m < |out| ==> out[m] == if m < j then Remap(types, copies[m]) else copies[m]
    {
      ghost var i := CopyOf(types, |src|, j);
      assert out[j] == Kept(src, marks, i);
      forall k | 0 <= k < |Ids(out[j])| ensures Ids(out[j])[k] < |src| {
        KeptIdsInRange(src, marks, i, k);
      }
      var t;
      ok, t := VisitTypeIds(out[j], ids, types);
      if !ok {
        assert false;
      }
      out := out[j := t];
      j := j + 1;
    }
    ok := true;
  }

  /** The minimised BTF, unless a marked member cannot be added to it. */
  method GetBtf(info: BtfgenInfo) returns (r: Option<Types>)
    requires info.Inv()
    ensures r.Some? <==> FieldsOk(info.srcBtf, info.typeMarks, info.memberMarks, |info.srcBtf|)
    ensures r.Some? ==> Minimised(info.srcBtf, info.typeMarks, info.memberMarks, r.value)
  {
    var n := |info.srcBtf|;
    var ids := new nat[n](_ => 0);
    var ok, copies := CopyMarked(info.srcBtf, info.typeMarks, info.memberMarks, ids);
    if !ok {
      return None;
    }
    var out;
    ok, out := FixIds(info.srcBtf, info.typeMarks, info.memberMarks, ids, copies);
    if !ok {
      return None;
    }
    r := Some(out);
  }

  // ---------------------------------------------------------------- the output is a BTF

  /** What recording leaves behind: `BtfgenInfo.Inv` as a statement about values. */
  ghost predicate Marked(src: Types, seen: set<Node>, types: set<nat>, marks: set<(nat, nat)>) {
    && Valid(src) && Closed(src, seen)
    && types == IdsOf(seen)
    && MembersOf(src, seen) <= marks
    && forall m :: m in marks ==> MemberKept(src, types, m)
  }

  lemma MarkedInRange(src: Types, seen: set<Node>, types: set<nat>, marks: set<(nat, nat)>, i: nat)
    requires Marked(src, seen, types, marks)
    ensures i in types ==> 0 < i < |src|
  {
  }

  lemma RemapIds(types: set<nat>, t: BtfType, k: nat)
    requires k < |Ids(t)|
    ensures k < |Ids(Remap(types, t))| && Ids(Remap(types, t))[k] == NewId(types, Ids(t)[k])
  {
  }

  /**
   * A kept record refers to the copies of what it referred to. A reference that becomes void
   * was void before, unless it is that of a pointer that marking did not follow.
   */
  lemma RefsKept(src: Types, seen: set<Node>, types: set<nat>, marks: set<(nat, nat)>, i: nat, k: nat)
    requires Marked(src, seen, types, marks) && i in types && i < |src| && k < |Ids(Kept(src, marks, i))|
    ensures var id := Ids(Kept(src, marks, i))[k];
      && k < |Ids(Remap(types, Kept(src, marks, i)))| && Ids(Remap(types, Kept(src, marks, i)))[k] == NewId(types, id)
      && (id in types || id == 0
          || (src[i].Ref? && src[i].refKind == Ptr && forall n :: n in seen && n.id == i ==> n.mode == NoPtr))
  {
    var t := Kept(src, marks, i);
    var id := Ids(t)[k];
    RemapIds(types, t, k);
    var n :| n in seen && n.id == i;
    if src[i].Ref? && src[i].refKind == Ptr {
      forall n | n in seen && n.id == i && n.mode != NoPtr ensures id in types || id == 0 {
        assert Next(src, n)[0].id == id;
      }
    }
    if t.Composite? {
      var m := KeptMembersFrom(marks, i, src[i].members, |src[i].members|, k);
      assert MemberKept(src, types, (i, m));
    } else if !(t.Ref? && t.refKind == Ptr) {
      FollowsIds(src[i], n.mode, k);
      assert Next(src, n)[k].id == id;
    }
  }

  lemma FollowsIds(t: BtfType, mode: Mode, k: nat)
    requires Supported(t, mode) && !t.Composite? && !(t.Ref? && t.refKind == Ptr) && k < |Ids(t)|
    ensures k < |Followed(t, mode)| && Followed(t, mode)[k].id == Ids(t)[k]
  {
  }

  /** The minimised BTF is a valid one. */
  lemma OutputValid(src: Types, seen: set<Node>, types: set<nat>, marks: set<(nat, nat)>, out: Types)
    requires Marked(src, seen, types, marks) && Minimised(src, types, marks, out)
    ensures Valid(out)
  {
    forall j, k | 0 <= j < |out| && 0 <= k < |Ids(out[j])| ensures Ids(out[j])[k] < |out| {
      if j > 0 {
        var i := CopyOf(types, |src|, j);
        OutputRefInRange(src, seen, types, marks, out, i, k);
      }
    }
    forall j | 0 < j < |out|
      ensures !(out[j].Scalar? && out[j].kind == Unkn)
      ensures out[j].Ref? && out[j].refKind == Fwd ==> out[j].typ == 0
    {
      var i := CopyOf(types, |src|, j);
      MarkedInRange(src, seen, types, marks, 0);
    }
  }

  lemma OutputRefInRange(src: Types, seen: set<Node>, types: set<nat>, marks: set<(nat, nat)>, out: Types, i: nat,
      k: nat)
    requires Marked(src, seen, types, marks) && Minimised(src, types, marks, out) && i in types && i < |src|
    requires k < |Ids(out[NewId(types, i)])|
    ensures Ids(out[NewId(types, i)])[k] < |out|
  {
    var t := Kept(src, marks, i);
    assert |Ids(Remap(types, t))| == |Ids(t)|;
    RefsKept(src, seen, types, marks, i, k);
    var id := Ids(t)[k];
    MarkedInRange(src, seen, types, marks, id);
    if id in types {
      assert NewId(types, id) < |out|;
    }
  }
}
