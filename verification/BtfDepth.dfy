/** Where marking ends: its recursion returns exactly when nothing that it goes on to leads back to itself. */
module BtfDepth {
  import opened Btf
  import opened Options

  /** Marking from `n` ends, with success or with failure: some depth of nesting is enough. */
  ghost predicate Returns(btf: Types, n: Node)
    requires Valid(btf) && n.id < |btf|
  {
    exists d :: Visit(btf, n, d).Some?
  }

  ghost predicate Succeeds(btf: Types, n: Node)
    requires Valid(btf) && n.id < |btf|
  {
    exists d :: Visit(btf, n, d) == Some(true)
  }

  /** Marking `n` goes on to its `k`-th successor: what comes before that does not fail. */
  ghost predicate GoesOnTo(btf: Types, n: Node, k: int)
    requires Valid(btf) && n.id < |btf| && 0 <= k < |Next(btf, n)|
  {
    n.id != 0 && Supported(btf[n.id], n.mode) && forall j :: 0 <= j < k ==> Succeeds(btf, Next(btf, n)[j])
  }

  ghost predicate Calls(btf: Types, n: Node, m: Node)
    requires Valid(btf) && n.id < |btf|
  {
    exists k :: 0 <= k < |Next(btf, n)| && Next(btf, n)[k] == m && GoesOnTo(btf, n, k)
  }

  /** Types in the order in which marking nests, from the root `t[0]` on. */
  ghost predicate IsTrail(btf: Types, t: seq<Node>)
    requires Valid(btf)
  {
    && |t| > 0 && (forall i :: 0 <= i < |t| ==> 0 < t[i].id < |btf|)
    && forall i :: 0 < i < |t| ==> Calls(btf, t[i - 1], t[i])
  }

  ghost predicate Repeats<T>(t: seq<T>) { exists i, j :: 0 <= i < j < |t| && t[i] == t[j] }

  /** No trail from `n` comes back to where it was. */
  ghost predicate Acyclic(btf: Types, n: Node)
    requires Valid(btf)
  {
    forall t :: IsTrail(btf, t) && t[0] == n ==> !Repeats(t)
  }

  // ---------------------------------------------------------------- long trails repeat

  lemma {:induction false} DistinctSize(s: seq<nat>, bound: nat)
    requires !Repeats(s) && forall i :: 0 <= i < |s| ==> s[i] < bound
    ensures |s| <= bound
    decreases bound
  {
    if s != [] {
      assert s[0] < bound;
      var top := bound - 1;
      if k :| 0 <= k < |s| && s[k] == top {
        var rest := s[..k] + s[k + 1..];
        forall i, j | 0 <= i < j < |rest| ensures rest[i] != rest[j] {
          assert s[if i < k then i else i + 1] != s[if j < k then j else j + 1];
        }
        DistinctSize(rest, top);
      } else {
        DistinctSize(s, top);
      }
    }
  }

  /** Nodes as numbers: four modes for each type. */
  function Code(n: Node): nat {
    4 * n.id + match n.mode
               case NoPtr => 0
               case FollowPtr => 1
               case Match(behindPtr) => if behindPtr then 2 else 3
  }

  lemma LongTrailRepeats(btf: Types, t: seq<Node>)
    requires Valid(btf) && IsTrail(btf, t) && |t| > 4 * |btf|
    ensures Repeats(t)
  {
    var codes := seq(|t|, i requires 0 <= i < |t| => Code(t[i]));
    if !Repeats(codes) {
      DistinctSize(codes, 4 * |btf|);
    }
    var i, j :| 0 <= i < j < |codes| && codes[i] == codes[j];
    assert t[i] == t[j];
  }

  // ---------------------------------------------------------------- more depth

  /** What marking returns does not depend on the depth that is available. */
  lemma {:induction false} VisitMore(btf: Types, n: Node, d: nat, d': nat)
    requires Valid(btf) && n.id < |btf| && Visit(btf, n, d).Some? && d <= d'
    ensures Visit(btf, n, d') == Visit(btf, n, d)
    decreases d, 0
  {
    if n.id != 0 && Supported(btf[n.id], n.mode) {
      VisitAllMore(btf, Next(btf, n), d - 1, d' - 1);
    }
  }

  lemma {:induction false} VisitAllMore(btf: Types, s: seq<Node>, d: nat, d': nat)
    requires Valid(btf) && (forall k :: 0 <= k < |s| ==> s[k].id < |btf|) && VisitAll(btf, s, d).Some? && d <= d'
    ensures VisitAll(btf, s, d') == VisitAll(btf, s, d)
    decreases d, |s| + 1
  {
    if s != [] {
      VisitMore(btf, s[0], d, d');
      if Visit(btf, s[0], d) == Some(true) {
        VisitAllMore(btf, s[1..], d, d');
      }
    }
  }

  /** A visit that returns and succeeds at some depth succeeds at the depth at hand. */
  lemma SucceedsHere(btf: Types, n: Node, d: nat)
    requires Valid(btf) && n.id < |btf| && Visit(btf, n, d).Some? && Succeeds(btf, n)
    ensures Visit(btf, n, d) == Some(true)
  {
    var e: nat :| Visit(btf, n, e) == Some(true);
    VisitMore(btf, n, if d <= e then d else e, if d <= e then e else d);
  }

  // ---------------------------------------------------------------- depth and trails

  /** Where successive visits do not return, one does not that is reached, and the others do. */
  lemma {:induction false} StuckAt(btf: Types, s: seq<Node>, d: nat) returns (k: nat)
    requires Valid(btf) && forall j :: 0 <= j < |s| ==> s[j].id < |btf|
    requires VisitAll(btf, s, d).None?
    ensures k < |s| && Visit(btf, s[k], d).None? && forall j :: 0 <= j < k ==> Succeeds(btf, s[j])
    decreases |s|
  {
    if Visit(btf, s[0], d).None? {
      k := 0;
    } else {
      var k' := StuckAt(btf, s[1..], d);
      k := k' + 1;
      assert Succeeds(btf, s[0]);
      forall j | 0 <= j < k ensures Succeeds(btf, s[j]) {
        assert j > 0 ==> s[j] == s[1..][j - 1];
      }
    }
  }

  /** The converse: a visit that is reached returns if all of them together do. */
  lemma {:induction false} ReachedReturns(btf: Types, s: seq<Node>, d: nat, k: nat)
    requires Valid(btf) && forall j :: 0 <= j < |s| ==> s[j].id < |btf|
    requires VisitAll(btf, s, d).Some? && k < |s| && forall j :: 0 <= j < k ==> Succeeds(btf, s[j])
    ensures Visit(btf, s[k], d).Some?
    decreases |s|
  {
    if k > 0 {
      SucceedsHere(btf, s[0], d);
      assert forall j :: 0 < j < |s| ==> s[j] == s[1..][j - 1];
      ReachedReturns(btf, s[1..], d, k - 1);
    }
  }

  /** Where a depth is not enough there is a trail that is longer. */
  lemma {:induction false} DeepTrail(btf: Types, n: Node, d: nat) returns (t: seq<Node>)
    requires Valid(btf) && n.id < |btf| && Visit(btf, n, d).None?
    ensures IsTrail(btf, t) && t[0] == n && |t| == d + 1
    decreases d
  {
    if d == 0 {
      t := [n];
    } else {
      var k := StuckAt(btf, Next(btf, n), d - 1);
      var rest := DeepTrail(btf, Next(btf, n)[k], d - 1);
      assert GoesOnTo(btf, n, k);
      t := [n] + rest;
      TrailCons(btf, n, rest);
    }
  }

  lemma TrailCons(btf: Types, n: Node, rest: seq<Node>)
    requires Valid(btf) && 0 < n.id < |btf| && IsTrail(btf, rest) && Calls(btf, n, rest[0])
    ensures IsTrail(btf, [n] + rest)
  {
    var t := [n] + rest;
    forall i | 0 < i < |t| ensures Calls(btf, t[i - 1], t[i]) {
      if i > 1 {
        assert Calls(btf, rest[i - 1 - 1], rest[i - 1]);
      }
    }
  }

  /** Along a trail the depth that is left shrinks. */
  lemma {:induction false} ReturnsAlong(btf: Types, t: seq<Node>, d: nat, i: nat)
    requires Valid(btf) && IsTrail(btf, t) && Visit(btf, t[0], d).Some? && i < |t|
    ensures i < d && Visit(btf, t[i], d - i).Some?
  {
    if i > 0 {
      ReturnsAlong(btf, t, d, i - 1);
      var n := t[i - 1];
      assert Calls(btf, t[i - 1], t[i]);
      var k :| 0 <= k < |Next(btf, n)| && Next(btf, n)[k] == t[i] && GoesOnTo(btf, n, k);
      ReachedReturns(btf, Next(btf, n), d - (i - 1) - 1, k);
    }
  }

  /** From a node that comes back to itself marking does not return. */
  lemma {:induction false} CycleStuck(btf: Types, t: seq<Node>, d: nat)
    requires Valid(btf) && IsTrail(btf, t) && |t| > 1 && t[0] == t[|t| - 1]
    ensures Visit(btf, t[0], d).None?
    decreases d
  {
    if Visit(btf, t[0], d).Some? {
      ReturnsAlong(btf, t, d, |t| - 1);
      CycleStuck(btf, t, d - (|t| - 1));
      assert false;
    }
  }

  lemma RepeatStuck(btf: Types, t: seq<Node>, d: nat)
    requires Valid(btf) && IsTrail(btf, t) && Repeats(t)
    ensures Visit(btf, t[0], d).None?
  {
    if Visit(btf, t[0], d).Some? {
      var i: nat, j: nat :| i < j < |t| && t[i] == t[j];
      ReturnsAlong(btf, t, d, i);
      Cycle(btf, t, i, j, d - i);
      assert false;
    }
  }

  lemma Cycle(btf: Types, t: seq<Node>, i: nat, j: nat, d: nat)
    requires Valid(btf) && IsTrail(btf, t) && i < j < |t| && t[i] == t[j]
    ensures Visit(btf, t[i], d).None?
  {
    SubTrail(btf, t, i, j);
    CycleStuck(btf, t[i..j + 1], d);
  }

  lemma SubTrail(btf: Types, t: seq<Node>, i: nat, j: nat)
    requires Valid(btf) && IsTrail(btf, t) && i <= j < |t|
    ensures IsTrail(btf, t[i..j + 1])
  {
    var part := t[i..j + 1];
    forall k | 0 < k < |part| ensures Calls(btf, part[k - 1], part[k]) {
      assert Calls(btf, t[i + k - 1], t[i + k]);
    }
  }

  lemma EnoughDepth(btf: Types, n: Node, d: nat)
    requires Valid(btf) && n.id < |btf| && Visit(btf, n, d).Some?
    ensures Acyclic(btf, n) && Visit(btf, n, 4 * |btf|) == Visit(btf, n, d)
  {
    forall t | IsTrail(btf, t) && t[0] == n ensures !Repeats(t) {
      if Repeats(t) {
        RepeatStuck(btf, t, d);
      }
    }
    AcyclicReturns(btf, n);
    var e := 4 * |btf|;
    VisitMore(btf, n, if d <= e then d else e, if d <= e then e else d);
  }

  lemma AcyclicReturns(btf: Types, n: Node)
    requires Valid(btf) && n.id < |btf| && Acyclic(btf, n)
    ensures Visit(btf, n, 4 * |btf|).Some?
  {
    if Visit(btf, n, 4 * |btf|).None? {
      var t := DeepTrail(btf, n, 4 * |btf|);
      LongTrailRepeats(btf, t);
      assert false;
    }
  }

  /**
   * Marking from a node returns exactly when it does so at a depth that the number of types gives, and exactly when
   * nothing that it goes on to leads back to itself. More depth does not change what it returns.
   */
  lemma ReturnsIff(btf: Types, n: Node)
    requires Valid(btf) && n.id < |btf|
    ensures Returns(btf, n) <==> Visit(btf, n, 4 * |btf|).Some?
    ensures Returns(btf, n) <==> Acyclic(btf, n)
    ensures Succeeds(btf, n) <==> Visit(btf, n, 4 * |btf|) == Some(true)
    ensures forall d :: Visit(btf, n, d).Some? ==> Visit(btf, n, d) == Visit(btf, n, 4 * |btf|)
  {
    forall d: nat | Visit(btf, n, d).Some?
      ensures Acyclic(btf, n) && Visit(btf, n, d) == Visit(btf, n, 4 * |btf|)
    {
      EnoughDepth(btf, n, d);
    }
    if Acyclic(btf, n) {
      AcyclicReturns(btf, n);
    }
  }

  // ---------------------------------------------------------------- without pointers

  /** Marking without pointers returns for every type. */
  ghost predicate Grounded(btf: Types)
    requires Valid(btf)
  {
    forall i: nat :: i < |btf| ==> Returns(btf, Node(i, NoPtr))
  }

  /** Typedefs, modifiers, arrays and prototypes have greater ranks than the types that marking them goes on to. */
  ghost predicate Ranks(btf: Types, rank: seq<nat>)
    requires Valid(btf)
  {
    && |rank| == |btf|
    && forall i: nat, k :: 0 < i < |btf| && 0 <= k < |Next(btf, Node(i, NoPtr))| && GoesOnTo(btf, Node(i, NoPtr), k) ==>
         Next(btf, Node(i, NoPtr))[k].id == 0 || rank[Next(btf, Node(i, NoPtr))[k].id] < rank[i]
  }

  lemma StaysNoPtr(btf: Types, i: nat)
    requires Valid(btf) && i < |btf|
    ensures var s := Next(btf, Node(i, NoPtr)); forall k :: 0 <= k < |s| ==> s[k].mode == NoPtr
  {
  }

  lemma {:induction false} RankReturns(btf: Types, rank: seq<nat>, i: nat)
    requires Valid(btf) && Ranks(btf, rank) && i < |btf|
    ensures Visit(btf, Node(i, NoPtr), rank[i] + 1).Some?
    decreases rank[i]
  {
    var n := Node(i, NoPtr);
    StaysNoPtr(btf, i);
    if Visit(btf, n, rank[i] + 1).None? {
      var k := StuckAt(btf, Next(btf, n), rank[i]);
      assert GoesOnTo(btf, n, k);
      var m := Next(btf, n)[k];
      RankReturns(btf, rank, m.id);
      VisitMore(btf, m, rank[m.id] + 1, rank[i]);
    }
  }

  lemma NoneBelow(btf: Types, n: Node, d: nat)
    requires Valid(btf) && n.id < |btf| && (d == 0 || Visit(btf, n, d - 1).None?)
    ensures forall e: nat :: e < d ==> Visit(btf, n, e).None?
  {
    forall e: nat | e < d ensures Visit(btf, n, e).None? {
      if Visit(btf, n, e).Some? {
        VisitMore(btf, n, e, d - 1);
      }
    }
  }

  /** The least depth that is enough, if `d` is enough. */
  ghost function Depth(btf: Types, n: Node, d: nat): (r: nat)
    requires Valid(btf) && n.id < |btf| && Visit(btf, n, d).Some?
    ensures r <= d && Visit(btf, n, r).Some? && forall e: nat :: e < r ==> Visit(btf, n, e).None?
  {
    if d > 0 && Visit(btf, n, d - 1).Some? then Depth(btf, n, d - 1)
    else
      NoneBelow(btf, n, d);
      d
  }

  lemma DepthFalls(btf: Types, n: Node, k: nat, d: nat)
    requires Valid(btf) && 0 < n.id < |btf| && k < |Next(btf, n)| && GoesOnTo(btf, n, k) && Next(btf, n)[k].id != 0
    requires Visit(btf, n, d).Some? && Visit(btf, Next(btf, n)[k], d).Some?
    ensures Depth(btf, Next(btf, n)[k], d) < Depth(btf, n, d)
  {
    ReachedReturns(btf, Next(btf, n), Depth(btf, n, d) - 1, k);
  }

  /** Marking without pointers returns for all types exactly when they can be ranked. */
  lemma GroundedIff(btf: Types)
    requires Valid(btf)
    ensures Grounded(btf) <==> exists rank :: Ranks(btf, rank)
  {
    if rank :| Ranks(btf, rank) {
      forall i: nat | i < |btf| ensures Returns(btf, Node(i, NoPtr)) {
        RankReturns(btf, rank, i);
      }
    }
    if Grounded(btf) {
      DepthRanks(btf, 4 * |btf|);
    }
  }

  lemma DepthRanks(btf: Types, d: nat)
    requires Valid(btf) && Grounded(btf) && d == 4 * |btf|
    ensures exists rank :: Ranks(btf, rank)
  {
    forall i: nat | i < |btf| ensures Visit(btf, Node(i, NoPtr), d).Some? {
      ReturnsIff(btf, Node(i, NoPtr));
    }
    var rank := seq(|btf|, i requires 0 <= i < |btf| => Depth(btf, Node(i, NoPtr), d));
    forall i: nat, k | 0 < i < |btf| && 0 <= k < |Next(btf, Node(i, NoPtr))| && GoesOnTo(btf, Node(i, NoPtr), k)
      ensures Next(btf, Node(i, NoPtr))[k].id == 0 || rank[Next(btf, Node(i, NoPtr))[k].id] < rank[i]
    {
      StaysNoPtr(btf, i);
      if Next(btf, Node(i, NoPtr))[k].id != 0 {
        DepthFalls(btf, Node(i, NoPtr), k, d);
      }
    }
    assert Ranks(btf, rank);
  }

  // ---------------------------------------------------------------- endless recursion

  /** struct S { void (*f)(struct S); }: a prototype that takes its own structure by value. */
  function SelfTaking(): Types {
    [VOID,
     Composite(false, "S", 8, [Member("f", 2, 0, 0)]),
     Ref(Ptr, "", 3),
     FuncProto(0, [Param("", 1)])]
  }

  lemma SelfTakingNext()
    ensures var btf := SelfTaking();
      && Valid(btf)
      && Next(btf, Node(1, Match(false))) == [Node(2, Match(false))]
      && Next(btf, Node(2, Match(false))) == [Node(3, Match(true))]
      && Next(btf, Node(3, Match(true))) == [Node(0, Match(false)), Node(1, Match(false))]
  {
    var btf := SelfTaking();
    assert Ids(btf[1]) == [2] && Ids(btf[2]) == [3] && Ids(btf[3]) == [0, 1];
  }

  /**
   * Matching resets `behind_ptr` inside prototypes, so for this type it descends from the structure to itself and
   * does not return, while marking without matching does.
   */
  lemma MatchingMayNotEnd()
    ensures var btf := SelfTaking();
      && Valid(btf) && !Returns(btf, Node(1, Match(false)))
      && Succeeds(btf, Node(1, NoPtr)) && Succeeds(btf, Node(1, FollowPtr))
  {
    var btf := SelfTaking();
    SelfTakingNext();
    var t := [Node(1, Match(false)), Node(2, Match(false)), Node(3, Match(true)), Node(1, Match(false))];
    assert GoesOnTo(btf, t[0], 0) && GoesOnTo(btf, t[1], 0);
    assert Visit(btf, Node(0, Match(false)), 0) == Some(true);
    assert GoesOnTo(btf, t[2], 1);
    assert Calls(btf, t[0], t[1]) && Calls(btf, t[1], t[2]) && Calls(btf, t[2], t[3]);
    assert IsTrail(btf, t) && t[0] == t[3];
    ReturnsIff(btf, t[0]);
    assert Visit(btf, Node(1, NoPtr), 1) == Some(true) && Visit(btf, Node(1, FollowPtr), 1) == Some(true);
  }

  /** struct S { char tagged *p; void (*f)(struct S); }: the same behind a member with a type tag. */
  function TaggedFirst(): Types {
    [VOID,
     Composite(false, "S", 16, [Member("p", 4, 0, 0), Member("f", 2, 64, 0)]),
     Ref(Ptr, "", 3),
     FuncProto(0, [Param("", 1)]),
     Ref(Ptr, "", 5),
     Ref(TypeTag, "tagged", 6),
     Scalar(Int, "char", [])]
  }

  lemma TaggedFirstNext(btf: Types)
    requires btf == TaggedFirst()
    ensures Valid(btf) && Next(btf, Node(1, Match(false))) == [Node(4, Match(false)), Node(2, Match(false))]
    ensures Next(btf, Node(4, Match(false))) == [Node(5, Match(true))]
  {
    assert Ids(btf[1]) == [4, 2] && Ids(btf[2]) == [3] && Ids(btf[3]) == [0, 1];
    assert Ids(btf[4]) == [5] && Ids(btf[5]) == [6];
  }

  /** If the first type that marking goes on to is refused, so is the type itself. */
  lemma RefusedFirst(btf: Types, n: Node, d: nat)
    requires Valid(btf) && 0 < n.id < |btf| && Next(btf, n) != [] && Visit(btf, Next(btf, n)[0], d) == Some(false)
    ensures Visit(btf, n, d + 1) == Some(false)
  {
  }

  /** Here matching returns: it refuses the tag before it gets to the cycle. */
  lemma RefusedInTime(btf: Types)
    requires btf == TaggedFirst()
    ensures Valid(btf) && Visit(btf, Node(1, Match(false)), 3) == Some(false)
  {
    TaggedFirstNext(btf);
    assert Visit(btf, Node(5, Match(true)), 1) == Some(false);
    RefusedFirst(btf, Node(4, Match(false)), 1);
    RefusedFirst(btf, Node(1, Match(false)), 2);
  }
}
