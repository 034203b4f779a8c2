/**
 * The control-flow graph of one BPF function as a value, and what it has to do with execution.
 * Module Cfg builds the same graph with linked nodes.
 */
module CfgSpec {
  import opened Bpf
  import opened Options

  // ---------------------------------------------------------------- sorted lists without duplicates

  ghost predicate Sorted(s: seq<int>) { forall i, j :: 0 <= i < j < |s| ==> s[i] < s[j] }

  function Insert(s: seq<int>, x: int): (r: seq<int>)
    requires Sorted(s)
    ensures Sorted(r)
    ensures forall y :: y in r <==> y in s || y == x
  {
    if s == [] then [x]
    else if s[0] == x then s
    else if s[0] > x then [x] + s
    else
      var rest := Insert(s[1..], x);
      assert s == [s[0]] + s[1..];
      assert forall y :: y in s[1..] ==> s[0] < y;
      assert forall y :: y in rest ==> s[0] < y;
      assert forall k :: 0 <= k < |rest| ==> rest[k] in rest;
      [s[0]] + rest
  }

  lemma {:induction false} InsertAt(s: seq<int>, x: int, i: nat)
    requires Sorted(s) && i <= |s|
    requires forall k :: 0 <= k < i ==> s[k] < x
    requires i < |s| ==> x < s[i]
    ensures Insert(s, x) == s[..i] + [x] + s[i..]
  {
    if i == 0 {
      assert s[..0] + [x] + s[0..] == [x] + s;
    } else {
      InsertAt(s[1..], x, i - 1);
      assert Insert(s, x) == [s[0]] + Insert(s[1..], x);
      assert [s[0]] + (s[1..][..i - 1] + [x] + s[1..][i - 1..]) == s[..i] + [x] + s[i..];
    }
  }

  lemma {:induction false} InsertPresent(s: seq<int>, x: int)
    requires Sorted(s) && x in s
    ensures Insert(s, x) == s
  {
    if s[0] != x {
      assert x in s[1..];
      InsertPresent(s[1..], x);
    }
  }

  /** A sorted list is determined by its elements, so the order of discovery leaves no trace. */
  lemma {:induction false} SortedUnique(s: seq<int>, t: seq<int>)
    requires Sorted(s) && Sorted(t)
    requires forall y :: y in s <==> y in t
    ensures s == t
  {
    if s == [] {
      assert forall k :: 0 <= k < |t| ==> t[k] in t;
    } else {
      assert s[0] in t && t[0] in s;
      assert s[0] == t[0];
      forall y ensures y in s[1..] <==> y in t[1..] {
        assert y in s[1..] ==> y in s && y > s[0];
        assert y in t[1..] ==> y in t && y > t[0];
        assert y in s ==> y == s[0] || y in s[1..];
        assert y in t ==> y == t[0] || y in t[1..];
      }
      SortedUnique(s[1..], t[1..]);
    }
  }

  /** The last element of the range that begins with `heads[k]`, when the last range ends with `hi`. */
  function Tail(heads: seq<int>, hi: int, k: int): int
    requires 0 <= k < |heads|
  {
    if k + 1 < |heads| then heads[k + 1] - 1 else hi
  }

  /** The last of the first `n` heads that is not above `i`. */
  function LastBelow(heads: seq<int>, i: int, n: nat): (k: nat)
    requires 0 < n <= |heads| && heads[0] <= i
    ensures k < n && heads[k] <= i && forall m :: k < m < n ==> i < heads[m]
  {
    if heads[n - 1] <= i then n - 1 else LastBelow(heads, i, n - 1)
  }

  /** Ranges that begin with sorted heads tile `[heads[0], hi]`: in order, without gap or overlap. */
  lemma RangesTile(heads: seq<int>, hi: int, i: int)
    requires Sorted(heads) && |heads| > 0 && heads[0] <= i <= hi
    ensures exists k :: 0 <= k < |heads| && heads[k] <= i <= Tail(heads, hi, k)
    ensures forall k, m :: 0 <= k < m < |heads| ==> Tail(heads, hi, k) < heads[m]
  {
    var k := LastBelow(heads, i, |heads|);
    assert heads[k] <= i <= Tail(heads, hi, k);
  }

  // ---------------------------------------------------------------- functions

  /** The function starts known after scanning the first `n` instructions. */
  function StartsTo(p: Program, n: int): (r: seq<int>)
    requires 0 <= n <= |p|
    ensures Sorted(r)
  {
    if n == 0 then [0]
    else if IsPseudoCall(p[n - 1]) then Insert(StartsTo(p, n - 1), Target(p, n - 1))
    else StartsTo(p, n - 1)
  }

  function Starts(p: Program): (r: seq<int>)
    ensures Sorted(r)
  {
    StartsTo(p, |p|)
  }

  lemma {:induction false} StartsToExact(p: Program, n: int, x: int)
    requires 0 <= n <= |p|
    ensures x in StartsTo(p, n) <==> x == 0 || exists i :: 0 <= i < n && IsPseudoCall(p[i]) && x == Target(p, i)
  {
    if n > 0 {
      StartsToExact(p, n - 1, x);
    }
  }

  /** Functions start at the first instruction and at the targets of pseudo calls. */
  lemma StartsExact(p: Program, x: int)
    ensures x in Starts(p) <==> x == 0 || exists i :: 0 <= i < |p| && IsPseudoCall(p[i]) && x == Target(p, i)
  {
    StartsToExact(p, |p|, x);
  }

  /** The same by opcodes and displacements. */
  lemma StartsByCalls(p: Program, x: int)
    ensures x in Starts(p) <==>
      x == 0 || exists i :: 0 <= i < |p| && p[i].code == 0x85 && p[i].srcReg == 1 && x == i + p[i].off + 1
  {
    StartsExact(p, x);
    if x in Starts(p) && x != 0 {
      var i :| 0 <= i < |p| && IsPseudoCall(p[i]) && x == Target(p, i);
      assert p[i].code == 0x85 && p[i].srcReg == 1 && x == i + p[i].off + 1;
    }
    if i :| (0 <= i < |p| && p[i].code == 0x85 && p[i].srcReg == 1 && x == i + p[i].off + 1) {
      assert IsPseudoCall(p[i]) && x == Target(p, i);
    }
  }

  ghost predicate CallsContained(p: Program) {
    |p| > 0 && forall i :: 0 <= i < |p| && IsPseudoCall(p[i]) ==> 0 <= Target(p, i) < |p|
  }

  /** The last instruction of function `k`. */
  function End(p: Program, k: int): int
    requires 0 <= k < |Starts(p)|
  {
    Tail(Starts(p), |p| - 1, k)
  }

  /** Function ranges lie inside the program, begin with its first instruction and tile it. */
  lemma FunctionsTile(p: Program, i: int)
    requires CallsContained(p) && 0 <= i < |p|
    ensures var s := Starts(p);
      && |s| > 0 && s[0] == 0
      && (forall k :: 0 <= k < |s| ==> 0 <= s[k] <= End(p, k) < |p|)
      && (exists k :: 0 <= k < |s| && s[k] <= i <= End(p, k))
      && forall k, m :: 0 <= k < m < |s| ==> End(p, k) < s[m]
  {
    var s := Starts(p);
    StartsExact(p, 0);
    forall k | 0 <= k < |s| ensures 0 <= s[k] < |p| {
      StartsExact(p, s[k]);
    }
    RangesTile(s, |p| - 1, i);
  }

  // ---------------------------------------------------------------- block leaders

  /** `x` becomes a block head because of instruction `i`. */
  predicate LeaderBy(p: Program, i: int, x: int)
    requires 0 <= i < |p|
  {
    IsBranch(p[i]) && (x == Target(p, i) || (!IsGoto(p[i]) && x == i + 1))
  }

  /** What instruction `i` adds to the list of block heads. */
  function AddLeaders(p: Program, i: int, s: seq<int>): (r: seq<int>)
    requires 0 <= i < |p| && Sorted(s)
    ensures Sorted(r) && forall x :: x in r <==> x in s || LeaderBy(p, i, x)
  {
    if !IsBranch(p[i]) then s
    else if IsGoto(p[i]) then Insert(s, Target(p, i))
    else Insert(Insert(s, Target(p, i)), i + 1)
  }

  /** The block heads known after scanning `[lo, n)`. */
  function LeadersTo(p: Program, lo: int, n: int): (r: seq<int>)
    requires 0 <= lo <= n <= |p|
    ensures Sorted(r)
    decreases n
  {
    if n == lo then [lo] else AddLeaders(p, n - 1, LeadersTo(p, lo, n - 1))
  }

  /** `x` is the entry, or an instruction in `[lo, n)` makes it a block head. */
  ghost predicate IsLeader(p: Program, lo: int, n: int, x: int)
    requires 0 <= lo <= n <= |p|
  {
    x == lo || exists i :: lo <= i < n && LeaderBy(p, i, x)
  }

  lemma IsLeaderNext(p: Program, lo: int, n: int, x: int)
    requires 0 <= lo < n <= |p|
    ensures IsLeader(p, lo, n, x) <==> IsLeader(p, lo, n - 1, x) || LeaderBy(p, n - 1, x)
  {
  }

  /** Block heads are exactly the entry, the jump targets and the conditional fall-throughs. */
  lemma {:induction false} LeadersExact(p: Program, lo: int, n: int, x: int)
    requires 0 <= lo <= n <= |p|
    ensures x in LeadersTo(p, lo, n) <==> IsLeader(p, lo, n, x)
    decreases n
  {
    if n > lo {
      LeadersExact(p, lo, n - 1, x);
      IsLeaderNext(p, lo, n, x);
      assert LeadersTo(p, lo, n) == AddLeaders(p, n - 1, LeadersTo(p, lo, n - 1));
    }
  }

  // ---------------------------------------------------------------- well-formed functions

  /** Jumps stay inside the function, and its last instruction does not fall out of it. */
  ghost predicate Contained(p: Program, lo: int, hi: int) {
    && 0 <= lo <= hi < |p|
    && (forall i :: lo <= i <= hi && IsBranch(p[i]) ==> lo <= Target(p, i) <= hi)
    && (IsExit(p[hi]) || IsGoto(p[hi]))
  }

  /** What a verified program guarantees of a function beyond that. */
  ghost predicate WellFormed(p: Program, lo: int, hi: int) {
    && Contained(p, lo, hi)
    // no dead code: what follows a goto or an exit is a jump target
    && (forall i :: lo <= i < hi && (IsGoto(p[i]) || IsExit(p[i])) ==> IsLeader(p, lo, hi + 1, i + 1))
    // 32-bit jumps are conditional
    && (forall i :: lo <= i <= hi && Class(p[i].code) == BPF_JMP32 ==> IsBranch(p[i]) && !IsGoto(p[i]))
  }

  /** The block heads of a function whose jumps stay inside it. */
  ghost function Heads(p: Program, lo: int, hi: int): (s: seq<int>)
    requires Contained(p, lo, hi)
    ensures Sorted(s) && forall x :: x in s <==> IsLeader(p, lo, hi + 1, x)
    ensures |s| > 0 && s[0] == lo && forall k :: 0 <= k < |s| ==> lo <= s[k] <= hi
  {
    HeadsExist(p, lo, hi);
    var s :| Sorted(s) && forall x :: x in s <==> IsLeader(p, lo, hi + 1, x);
    HeadsInRange(p, lo, hi, s);
    s
  }

  lemma HeadsExist(p: Program, lo: int, hi: int)
    requires 0 <= lo <= hi < |p|
    ensures var s := LeadersTo(p, lo, hi + 1);
      Sorted(s) && forall x :: x in s <==> IsLeader(p, lo, hi + 1, x)
  {
    var n := hi + 1;
    forall x ensures x in LeadersTo(p, lo, n) <==> IsLeader(p, lo, n, x) {
      LeadersExact(p, lo, n, x);
    }
  }

  lemma HeadsInRange(p: Program, lo: int, hi: int, s: seq<int>)
    requires Contained(p, lo, hi)
    requires Sorted(s) && forall x :: x in s <==> IsLeader(p, lo, hi + 1, x)
    ensures |s| > 0 && s[0] == lo && forall k :: 0 <= k < |s| ==> lo <= s[k] <= hi
  {
    assert forall k :: 0 <= k < |s| ==> s[k] in s;
    assert lo in s;
  }

  /** Instruction `i` jumps to `x`, or goes on to `x` because its jump is conditional. */
  predicate LeadsTo(p: Program, i: int, x: int)
    requires 0 <= i < |p|
  {
    && p[i].code % 8 in {5, 6} && p[i].code / 16 !in {8, 9}
    && (x == i + p[i].off + 1 || (x == i + 1 && p[i].code / 16 != 0))
  }

  /** By opcodes and displacements: a head is where the function begins, where a jump leads or what it skips. */
  lemma HeadsByJumps(p: Program, lo: int, hi: int, x: int)
    requires Contained(p, lo, hi)
    ensures x in Heads(p, lo, hi) <==> x == lo || exists i :: lo <= i <= hi && LeadsTo(p, i, x)
  {
    forall i | lo <= i <= hi ensures LeadsTo(p, i, x) <==> LeaderBy(p, i, x) {
      Opcodes(p[i]);
    }
    if i :| (lo <= i <= hi && LeadsTo(p, i, x)) {
      assert LeaderBy(p, i, x);
    }
  }

  /** Scanning the function from first to last instruction finds its heads. */
  lemma LeadersAreHeads(p: Program, lo: int, hi: int)
    requires Contained(p, lo, hi)
    ensures LeadersTo(p, lo, hi + 1) == Heads(p, lo, hi)
  {
    HeadsExist(p, lo, hi);
    SortedUnique(LeadersTo(p, lo, hi + 1), Heads(p, lo, hi));
  }

  // ---------------------------------------------------------------- the graph

  const EDGE_FLAG_FALLTHROUGH := 0x1
  const EDGE_FLAG_JUMP := 0x2

  /** An edge to the `to`-th node of the function's node list, in which node 0 is the entry node, or to nowhere. */
  datatype Succ = Succ(to: Option<nat>, flags: int)

  function IndexOf(s: seq<int>, x: int): (k: nat)
    requires x in s
    ensures k < |s| && s[k] == x
  {
    if s[0] == x then 0 else 1 + IndexOf(s[1..], x)
  }

  /** The instructions that end the blocks are in the program. */
  ghost predicate TailsInside(p: Program, heads: seq<int>, hi: int) {
    |heads| > 0 && Sorted(heads) && forall k :: 0 <= k < |heads| ==> 0 <= Tail(heads, hi, k) < |p|
  }

  /** The node of the block that begins with `x`, if there is one. */
  function NodeAt(heads: seq<int>, x: int): Option<nat> {
    if x in heads then Some(IndexOf(heads, x) + 1) else None
  }

  /**
   * The successor edges of block `k`, which is node `k + 1` of the node list.
   * The builder treats a call at the end of a block like a conditional jump.
   */
  function Succs(p: Program, heads: seq<int>, hi: int, k: int): (r: seq<Succ>)
    requires 0 <= k < |heads| && 0 <= Tail(heads, hi, k) < |p|
  {
    var t := Tail(heads, hi, k);
    if !IsJmp(p[t]) || IsExit(p[t]) then
      [Succ(Some(k + 2), EDGE_FLAG_FALLTHROUGH)]
    else if IsGoto(p[t]) then
      [Succ(NodeAt(heads, Target(p, t)), EDGE_FLAG_JUMP)]
    else
      [Succ(Some(k + 2), EDGE_FLAG_FALLTHROUGH), Succ(NodeAt(heads, Target(p, t)), EDGE_FLAG_JUMP)]
  }

  // ---------------------------------------------------------------- the graph of a function

  /** First and last instruction of block `k` of the function. */
  ghost function First(p: Program, lo: int, hi: int, k: int): (i: int)
    requires Contained(p, lo, hi) && 0 <= k < |Heads(p, lo, hi)|
    ensures lo <= i <= hi
  {
    Heads(p, lo, hi)[k]
  }

  ghost function Last(p: Program, lo: int, hi: int, k: int): (i: int)
    requires Contained(p, lo, hi) && 0 <= k < |Heads(p, lo, hi)|
    ensures First(p, lo, hi, k) <= i <= hi
  {
    Tail(Heads(p, lo, hi), hi, k)
  }

  /** The blocks tile the function: every instruction lies in exactly one of them. */
  lemma BlocksTile(p: Program, lo: int, hi: int, i: int)
    requires Contained(p, lo, hi) && lo <= i <= hi
    ensures exists k :: 0 <= k < |Heads(p, lo, hi)| && First(p, lo, hi, k) <= i <= Last(p, lo, hi, k)
    ensures forall k, m :: 0 <= k < m < |Heads(p, lo, hi)| ==> Last(p, lo, hi, k) < First(p, lo, hi, m)
  {
    RangesTile(Heads(p, lo, hi), hi, i);
    var k :| 0 <= k < |Heads(p, lo, hi)| && Heads(p, lo, hi)[k] <= i <= Tail(Heads(p, lo, hi), hi, k);
    assert First(p, lo, hi, k) <= i <= Last(p, lo, hi, k);
  }

  /** The block of instruction `i`. */
  ghost function Block(p: Program, lo: int, hi: int, i: int): (k: nat)
    requires Contained(p, lo, hi) && lo <= i <= hi
    ensures k < |Heads(p, lo, hi)| && First(p, lo, hi, k) <= i <= Last(p, lo, hi, k)
    ensures forall m :: 0 <= m < |Heads(p, lo, hi)| && First(p, lo, hi, m) <= i <= Last(p, lo, hi, m) ==> m == k
  {
    var s := Heads(p, lo, hi);
    var k := LastBelow(s, i, |s|);
    RangesTile(s, hi, i);
    k
  }

  /** An instruction ends its block exactly when the function or a new block begins behind it. */
  lemma LastIff(p: Program, lo: int, hi: int, i: int)
    requires Contained(p, lo, hi) && lo <= i <= hi
    ensures i == Last(p, lo, hi, Block(p, lo, hi, i)) <==> i == hi || IsLeader(p, lo, hi + 1, i + 1)
  {
    var s := Heads(p, lo, hi);
    var k := Block(p, lo, hi, i);
    if i + 1 in s {
      var m := IndexOf(s, i + 1);
      assert m == k + 1 by {
        assert m > 0 && First(p, lo, hi, m - 1) <= i <= Last(p, lo, hi, m - 1);
      }
    } else if k + 1 < |s| {
      assert s[k + 1] in s;
    }
  }

  /** The target of a jump that ends a block is the head of a block. */
  lemma TargetKnown(p: Program, lo: int, hi: int, k: int)
    requires Contained(p, lo, hi) && 0 <= k < |Heads(p, lo, hi)| && IsBranch(p[Last(p, lo, hi, k)])
    ensures Target(p, Last(p, lo, hi, k)) in Heads(p, lo, hi)
  {
    assert LeaderBy(p, Last(p, lo, hi, k), Target(p, Last(p, lo, hi, k)));
  }

  lemma TailsStayInside(p: Program, lo: int, hi: int)
    requires Contained(p, lo, hi)
    ensures TailsInside(p, Heads(p, lo, hi), hi)
  {
    forall k | 0 <= k < |Heads(p, lo, hi)| ensures 0 <= Tail(Heads(p, lo, hi), hi, k) < |p| {
      assert 0 <= Last(p, lo, hi, k) < |p|;
    }
  }

  /**
   * The successor edges of block `k`: each leads to a block or, from a final exit, to the exit node. Only the
   * edge of a call may lead nowhere.
   */
  ghost function Edges(p: Program, lo: int, hi: int, k: int): (r: seq<Succ>)
    requires Contained(p, lo, hi) && 0 <= k < |Heads(p, lo, hi)|
    ensures forall m :: 0 <= m < |r| ==>
      if r[m].to.None? then IsCall(p[Last(p, lo, hi, k)])
      else
        && 1 <= r[m].to.value <= |Heads(p, lo, hi)| + 1
        && (r[m].to.value == |Heads(p, lo, hi)| + 1 ==> k == |Heads(p, lo, hi)| - 1 && IsExit(p[hi]))
  {
    if IsBranch(p[Last(p, lo, hi, k)]) then
      TargetKnown(p, lo, hi, k);
      Succs(p, Heads(p, lo, hi), hi, k)
    else
      Succs(p, Heads(p, lo, hi), hi, k)
  }

  /** What follows the block in the node list: the next block, which begins behind it, or the exit node. */
  lemma NextNode(p: Program, lo: int, hi: int, k: int)
    requires Contained(p, lo, hi) && 0 <= k < |Heads(p, lo, hi)|
    ensures if k + 1 == |Heads(p, lo, hi)| then Last(p, lo, hi, k) == hi
            else First(p, lo, hi, k + 1) == Last(p, lo, hi, k) + 1
  {
  }

  /**
   * The edges of block `k`, which ends with instruction `t`, by the opcode and the displacement of that instruction:
   * flag 1 is on the one edge to the next node, flag 2 on the one edge to the block at the displacement or to nowhere.
   */
  ghost predicate EdgesRight(p: Program, heads: seq<int>, t: int, k: int, edges: seq<Succ>)
    requires 0 <= t < |p|
  {
    var jump := p[t].code % 8 in {5, 6} && p[t].code / 16 != 9;
    && (forall m :: 0 <= m < |edges| ==>
          || (edges[m].flags == 1 && edges[m].to == Some(k + 2))
          || (edges[m].flags == 2 && LeadsToHead(heads, edges[m].to, t + p[t].off + 1)))
    && (forall m, n :: 0 <= m < n < |edges| ==> edges[m].flags < edges[n].flags)
    && ((exists m :: 0 <= m < |edges| && edges[m].flags == 1) <==> !(jump && p[t].code / 16 == 0))
    && ((exists m :: 0 <= m < |edges| && edges[m].flags == 2) <==> jump)
  }

  /** The node of the block that begins with `x`, or none if there is no such block. */
  ghost predicate LeadsToHead(heads: seq<int>, to: Option<nat>, x: int) {
    match to
    case None => x !in heads
    case Some(n) => 1 <= n <= |heads| && heads[n - 1] == x
  }

  /** The first edge is there unless the block ends in a goto, the second exactly behind a jump or call but no exit. */
  lemma EdgesExact(p: Program, lo: int, hi: int, k: int)
    requires Contained(p, lo, hi) && 0 <= k < |Heads(p, lo, hi)|
    ensures EdgesRight(p, Heads(p, lo, hi), Last(p, lo, hi, k), k, Edges(p, lo, hi, k))
  {
    var edges, insn := Edges(p, lo, hi, k), p[Last(p, lo, hi, k)];
    Opcodes(insn);
    if !IsGoto(insn) {
      assert edges[0].flags == 1;
    }
    if IsJmp(insn) && !IsExit(insn) {
      assert edges[|edges| - 1].flags == 2;
    }
  }

  /** The graph of the function: the successor edges of each of its blocks. */
  ghost function Graph(p: Program, lo: int, hi: int): (g: seq<seq<Succ>>)
    requires Contained(p, lo, hi)
    ensures |g| == |Heads(p, lo, hi)| && forall k :: 0 <= k < |g| ==> g[k] == Edges(p, lo, hi, k)
  {
    seq(|Heads(p, lo, hi)|, k requires 0 <= k < |Heads(p, lo, hi)| => Edges(p, lo, hi, k))
  }

  /** Block `a` has an edge to block `b`. */
  ghost predicate HasEdge(p: Program, lo: int, hi: int, a: int, b: int)
    requires Contained(p, lo, hi)
  {
    && 0 <= a < |Heads(p, lo, hi)| && 0 <= b < |Heads(p, lo, hi)|
    && exists m :: 0 <= m < |Edges(p, lo, hi, a)| && Edges(p, lo, hi, a)[m].to == Some(b + 1)
  }

  // ---------------------------------------------------------------- dangling edges

  /** Edge `m` of block `k` leads nowhere. */
  ghost predicate Dangles(p: Program, lo: int, hi: int, k: int, m: int)
    requires Contained(p, lo, hi) && 0 <= k < |Heads(p, lo, hi)| && 0 <= m < |Edges(p, lo, hi, k)|
  {
    Edges(p, lo, hi, k)[m].to.None?
  }

  ghost predicate NoneDangles(p: Program, lo: int, hi: int)
    requires Contained(p, lo, hi)
  {
    forall k, m :: 0 <= k < |Heads(p, lo, hi)| && 0 <= m < |Edges(p, lo, hi, k)| ==> !Dangles(p, lo, hi, k, m)
  }

  /** A call in front of a block head has a displacement that leads to a block head, as 0 does. */
  ghost predicate CallsLand(p: Program, lo: int, hi: int)
    requires Contained(p, lo, hi)
  {
    forall i :: lo <= i < hi && IsCall(p[i]) && IsLeader(p, lo, hi + 1, i + 1) ==> IsLeader(p, lo, hi + 1, Target(p, i))
  }

  /** All edges of a function have a destination exactly when its calls at the ends of blocks lead to block heads. */
  lemma NoneDanglesIff(p: Program, lo: int, hi: int)
    requires Contained(p, lo, hi)
    ensures NoneDangles(p, lo, hi) <==> CallsLand(p, lo, hi)
  {
    var s := Heads(p, lo, hi);
    if CallsLand(p, lo, hi) {
      forall k, m | 0 <= k < |s| && 0 <= m < |Edges(p, lo, hi, k)| ensures !Dangles(p, lo, hi, k, m) {
        EndsBlock(p, lo, hi, k);
      }
    } else {
      var i :| lo <= i < hi && IsCall(p[i]) && IsLeader(p, lo, hi + 1, i + 1) && !IsLeader(p, lo, hi + 1, Target(p, i));
      LastIff(p, lo, hi, i);
      var k := Block(p, lo, hi, i);
      assert Edges(p, lo, hi, k)[1].to == None;
      assert Dangles(p, lo, hi, k, 1);
    }
  }

  /** What follows a block that is not the last one is a block head. */
  lemma EndsBlock(p: Program, lo: int, hi: int, k: int)
    requires Contained(p, lo, hi) && 0 <= k < |Heads(p, lo, hi)|
    ensures var t := Last(p, lo, hi, k); t == hi || (t < hi && IsLeader(p, lo, hi + 1, t + 1))
  {
    var s := Heads(p, lo, hi);
    if k + 1 < |s| {
      assert s[k + 1] in s;
    }
  }

  /** A function with a call of another function in front of a jump target. */
  function CallBeforeJoin(): Program {
    [Insn(0x15, 0, 1, 0),  // if r0 == 0 goto 2
     Insn(0x85, 1, 1, 1),  // call 3
     Insn(0x95, 0, 0, 0),  // exit
     Insn(0x95, 0, 0, 0)]  // exit
  }

  /** The program is a proper one, and yet an edge of its first function leads nowhere. */
  lemma CallEdgeDangles()
    ensures CallsContained(CallBeforeJoin()) && WellFormed(CallBeforeJoin(), 0, 2)
    ensures Starts(CallBeforeJoin()) == [0, 3] && !NoneDangles(CallBeforeJoin(), 0, 2)
  {
    var p := CallBeforeJoin();
    CallBeforeJoinFunctions();
    CallBeforeJoinProper(p);
    assert LeaderBy(p, 0, 2) && IsCall(p[1]) && Target(p, 1) == 3;
    assert IsLeader(p, 0, 3, 2) && !IsLeader(p, 0, 3, 3);
    NoneDanglesIff(p, 0, 2);
  }

  lemma CallBeforeJoinProper(p: Program)
    requires p == CallBeforeJoin()
    ensures CallsContained(p) && WellFormed(p, 0, 2)
  {
    assert LeaderBy(p, 0, 2);
  }

  lemma CallBeforeJoinFunctions()
    ensures Starts(CallBeforeJoin()) == [0, 3]
  {
    var p := CallBeforeJoin();
    assert StartsTo(p, 1) == [0];
    assert StartsTo(p, 2) == Insert([0], 3) == [0, 3];
    assert StartsTo(p, 3) == [0, 3];
  }

  // ---------------------------------------------------------------- steps and edges

  /** Inside a block execution moves to the next instruction and nowhere else. */
  lemma InsideBlock(p: Program, lo: int, hi: int, i: int, j: int)
    requires WellFormed(p, lo, hi) && lo <= i < hi && !IsLeader(p, lo, hi + 1, i + 1)
    ensures Step(p, i, j) <==> j == i + 1
  {
    if LeaderBy(p, i, i + 1) {
      assert false;
    }
  }

  lemma LastStep(p: Program, lo: int, hi: int, a: int, j: int)
    requires WellFormed(p, lo, hi) && 0 <= a < |Heads(p, lo, hi)|
    requires Step(p, Last(p, lo, hi, a), j)
    ensures lo <= j <= hi
    ensures var b := Block(p, lo, hi, j); j == First(p, lo, hi, b) && HasEdge(p, lo, hi, a, b)
  {
    var s := Heads(p, lo, hi);
    var t := Last(p, lo, hi, a);
    var edges := Edges(p, lo, hi, a);
    if j == t + 1 && !IsGoto(p[t]) {
      assert a + 1 < |s| && j == First(p, lo, hi, a + 1);
      assert Block(p, lo, hi, j) == a + 1;
      assert edges[0].to == Some(a + 2);
    } else {
      TargetKnown(p, lo, hi, a);
      var b := IndexOf(s, j);
      assert j == First(p, lo, hi, b);
      assert Block(p, lo, hi, j) == b;
      assert edges[|edges| - 1].to == Some(b + 1);
    }
  }

  /** A step within a block, or a step from the end of one block along an edge to the head of another. */
  ghost predicate FollowsGraph(p: Program, lo: int, hi: int, i: int, j: int)
    requires Contained(p, lo, hi) && lo <= i <= hi && lo <= j <= hi
  {
    var a, b := Block(p, lo, hi, i), Block(p, lo, hi, j);
    || (i < Last(p, lo, hi, a) && j == i + 1 && a == b)
    || (i == Last(p, lo, hi, a) && j == First(p, lo, hi, b) && HasEdge(p, lo, hi, a, b))
  }

  /** Simulation: the graph has every step that execution can take. */
  lemma StepFollowsGraph(p: Program, lo: int, hi: int, i: int, j: int)
    requires WellFormed(p, lo, hi) && lo <= i <= hi && Step(p, i, j)
    ensures lo <= j <= hi && FollowsGraph(p, lo, hi, i, j)
  {
    LastIff(p, lo, hi, i);
    var a := Block(p, lo, hi, i);
    if i == Last(p, lo, hi, a) {
      LastStep(p, lo, hi, a, j);
    } else {
      InsideBlock(p, lo, hi, i, j);
      assert First(p, lo, hi, a) <= j <= Last(p, lo, hi, a);
    }
  }

  /** The edge is not behind an exit, and behind a call it leads to the next block. */
  ghost predicate Taken(p: Program, lo: int, hi: int, a: int, b: int)
    requires Contained(p, lo, hi) && 0 <= a < |Heads(p, lo, hi)|
  {
    var insn := p[Last(p, lo, hi, a)];
    !IsExit(insn) && (IsCall(insn) ==> b == a + 1)
  }

  /** Exactness: an edge is a step that execution can take exactly when it is none of an exit or a displaced call. */
  lemma EdgeIsStepIff(p: Program, lo: int, hi: int, a: int, b: int)
    requires WellFormed(p, lo, hi) && HasEdge(p, lo, hi, a, b)
    ensures Step(p, Last(p, lo, hi, a), First(p, lo, hi, b)) <==> Taken(p, lo, hi, a, b)
  {
    var s := Heads(p, lo, hi);
    var t := Last(p, lo, hi, a);
    var edges := Edges(p, lo, hi, a);
    var m :| 0 <= m < |edges| && edges[m].to == Some(b + 1);
    if b == a + 1 {
      assert s[b] == t + 1;
    } else if edges[m].flags == EDGE_FLAG_JUMP {
      assert s[b] == Target(p, t);
      assert a + 1 < |s| ==> s[a + 1] == t + 1 && s[b] != s[a + 1];
    }
  }

  /** An exit ends execution, but its block is linked to the next node: there the graph has more than execution. */
  lemma ExitOverApproximates(p: Program, lo: int, hi: int, a: int, j: int)
    requires WellFormed(p, lo, hi) && 0 <= a < |Heads(p, lo, hi)| && IsExit(p[Last(p, lo, hi, a)])
    ensures !Step(p, Last(p, lo, hi, a), j)
    ensures Edges(p, lo, hi, a) == [Succ(Some(a + 2), EDGE_FLAG_FALLTHROUGH)]
  {
  }

  // ---------------------------------------------------------------- paths

  /** A path of the graph that starts in the first block. */
  ghost predicate IsPath(p: Program, lo: int, hi: int, path: seq<nat>)
    requires Contained(p, lo, hi)
  {
    && |path| > 0 && path[0] == 0
    && (forall k :: 0 <= k < |path| ==> path[k] < |Heads(p, lo, hi)|)
    && forall k :: 0 <= k < |path| - 1 ==> HasEdge(p, lo, hi, path[k], path[k + 1])
  }

  function Range(a: int, b: int): (r: seq<int>)
    requires a <= b + 1
    ensures |r| == b + 1 - a && forall k :: 0 <= k < |r| ==> r[k] == a + k
  {
    seq(b + 1 - a, k => a + k)
  }

  /** The instructions of the blocks of `path`, one block after the other. */
  ghost function Expand(p: Program, lo: int, hi: int, path: seq<nat>): (r: seq<int>)
    requires Contained(p, lo, hi)
    requires forall k :: 0 <= k < |path| ==> path[k] < |Heads(p, lo, hi)|
  {
    if path == [] then []
    else
      var b := path[|path| - 1];
      Expand(p, lo, hi, path[..|path| - 1]) + Range(First(p, lo, hi, b), Last(p, lo, hi, b))
  }

  /** `t` has run along `path` and stands at instruction `i` of its last block. */
  ghost predicate RanAlong(p: Program, lo: int, hi: int, path: seq<nat>, t: seq<int>, i: int)
    requires Contained(p, lo, hi) && IsPath(p, lo, hi, path)
  {
    var b := path[|path| - 1];
    && First(p, lo, hi, b) <= i <= Last(p, lo, hi, b)
    && t == Expand(p, lo, hi, path[..|path| - 1]) + Range(First(p, lo, hi, b), i)
  }

  lemma {:induction false} ExecutionHasPath(p: Program, lo: int, hi: int, t: seq<int>) returns (path: seq<nat>)
    requires WellFormed(p, lo, hi) && IsExecution(p, lo, t)
    ensures IsPath(p, lo, hi, path) && RanAlong(p, lo, hi, path, t, t[|t| - 1])
    decreases |t|
  {
    if |t| == 1 {
      path := [0];
      assert path[..0] == [];
      assert t == [] + Range(lo, lo);
    } else {
      var t0 := t[..|t| - 1];
      var path0 := ExecutionHasPath(p, lo, hi, t0);
      path := ExtendPath(p, lo, hi, path0, t0, t[|t| - 2], t[|t| - 1]);
      assert t == t0 + [t[|t| - 1]];
    }
  }

  lemma PathSnoc(p: Program, lo: int, hi: int, path: seq<nat>, b: nat)
    requires Contained(p, lo, hi) && IsPath(p, lo, hi, path) && HasEdge(p, lo, hi, path[|path| - 1], b)
    ensures IsPath(p, lo, hi, path + [b])
  {
    var longer := path + [b];
    forall k | 0 <= k < |longer| - 1 ensures HasEdge(p, lo, hi, longer[k], longer[k + 1]) {
      if k < |path| - 1 {
        assert HasEdge(p, lo, hi, path[k], path[k + 1]);
      }
    }
  }

  lemma ExtendPath(p: Program, lo: int, hi: int, path0: seq<nat>, t: seq<int>, i: int, j: int) returns (path: seq<nat>)
    requires WellFormed(p, lo, hi) && IsPath(p, lo, hi, path0) && RanAlong(p, lo, hi, path0, t, i)
    requires Step(p, i, j)
    ensures IsPath(p, lo, hi, path) && RanAlong(p, lo, hi, path, t + [j], j)
  {
    var a := path0[|path0| - 1];
    assert a == Block(p, lo, hi, i);
    StepFollowsGraph(p, lo, hi, i, j);
    if i < Last(p, lo, hi, a) {
      path := path0;
      StayInBlock(p, lo, hi, path0, t, i);
    } else {
      path := path0 + [Block(p, lo, hi, j)];
      PathSnoc(p, lo, hi, path0, Block(p, lo, hi, j));
      EnterBlock(p, lo, hi, path0, t, Block(p, lo, hi, j));
    }
  }

  lemma StayInBlock(p: Program, lo: int, hi: int, path: seq<nat>, t: seq<int>, i: int)
    requires Contained(p, lo, hi) && IsPath(p, lo, hi, path) && RanAlong(p, lo, hi, path, t, i)
    requires i < Last(p, lo, hi, path[|path| - 1])
    ensures RanAlong(p, lo, hi, path, t + [i + 1], i + 1)
  {
    var first := First(p, lo, hi, path[|path| - 1]);
    assert Range(first, i) + [i + 1] == Range(first, i + 1);
  }

  lemma EnterBlock(p: Program, lo: int, hi: int, path: seq<nat>, t: seq<int>, b: nat)
    requires Contained(p, lo, hi) && b < |Heads(p, lo, hi)|
    requires IsPath(p, lo, hi, path) && IsPath(p, lo, hi, path + [b])
    requires RanAlong(p, lo, hi, path, t, Last(p, lo, hi, path[|path| - 1]))
    ensures RanAlong(p, lo, hi, path + [b], t + [First(p, lo, hi, b)], First(p, lo, hi, b))
  {
    var j := First(p, lo, hi, b);
    assert (path + [b])[..|path + [b]| - 1] == path;
    assert [j] == Range(j, j);
  }

  /** Every execution of the function runs along a path of its graph. */
  lemma ExecutionsArePaths(p: Program, lo: int, hi: int, t: seq<int>)
    requires WellFormed(p, lo, hi) && IsExecution(p, lo, t)
    ensures exists path :: IsPath(p, lo, hi, path) && t <= Expand(p, lo, hi, path)
  {
    var path := ExecutionHasPath(p, lo, hi, t);
    var b := path[|path| - 1];
    assert Range(First(p, lo, hi, b), t[|t| - 1]) <= Range(First(p, lo, hi, b), Last(p, lo, hi, b));
    assert t <= Expand(p, lo, hi, path);
  }

  /** All edges of the path are steps. */
  ghost predicate AllTaken(p: Program, lo: int, hi: int, path: seq<nat>)
    requires Contained(p, lo, hi) && forall k :: 0 <= k < |path| ==> path[k] < |Heads(p, lo, hi)|
  {
    forall k :: 0 <= k < |path| - 1 ==> Taken(p, lo, hi, path[k], path[k + 1])
  }

  /** Conversely a path is an execution exactly when it does not run on behind an exit or along a call. */
  lemma {:induction false} PathsAreExecutions(p: Program, lo: int, hi: int, path: seq<nat>)
    requires WellFormed(p, lo, hi) && IsPath(p, lo, hi, path)
    ensures var t := Expand(p, lo, hi, path);
      && |t| > 0 && t[|t| - 1] == Last(p, lo, hi, path[|path| - 1])
      && (IsExecution(p, lo, t) <==> AllTaken(p, lo, hi, path))
    decreases |path|
  {
    if |path| == 1 {
      FirstBlock(p, lo, hi, path);
    } else {
      var path0 := PathFront(p, lo, hi, path);
      PathsAreExecutions(p, lo, hi, path0);
      JoinBlock(p, lo, hi, path, path0, path[|path| - 1], Expand(p, lo, hi, path0));
    }
  }

  lemma FirstBlock(p: Program, lo: int, hi: int, path: seq<nat>)
    requires WellFormed(p, lo, hi) && IsPath(p, lo, hi, path) && |path| == 1
    ensures var t := Expand(p, lo, hi, path);
      |t| > 0 && t[|t| - 1] == Last(p, lo, hi, path[|path| - 1]) && IsExecution(p, lo, t)
  {
    var b := path[|path| - 1];
    BlockRuns(p, lo, hi, b);
    assert path[..0] == [];
    assert Expand(p, lo, hi, path) == Range(First(p, lo, hi, b), Last(p, lo, hi, b));
  }

  lemma PathFront(p: Program, lo: int, hi: int, path: seq<nat>) returns (path0: seq<nat>)
    requires Contained(p, lo, hi) && IsPath(p, lo, hi, path) && |path| > 1
    ensures path0 == path[..|path| - 1] && path == path0 + [path[|path| - 1]] && IsPath(p, lo, hi, path0)
  {
    path0 := path[..|path| - 1];
    assert forall k :: 0 <= k < |path0| ==> path0[k] == path[k];
  }

  /** `t` has run along `path0`, and goes on through block `b`. */
  lemma JoinBlock(p: Program, lo: int, hi: int, path: seq<nat>, path0: seq<nat>, b: nat, t: seq<int>)
    requires WellFormed(p, lo, hi) && IsPath(p, lo, hi, path) && IsPath(p, lo, hi, path0)
    requires path == path0 + [b] && b == path[|path0|]
    requires |t| > 0 && t[|t| - 1] == Last(p, lo, hi, path0[|path0| - 1])
    requires IsExecution(p, lo, t) <==> AllTaken(p, lo, hi, path0)
    ensures IsExecution(p, lo, t + Range(First(p, lo, hi, b), Last(p, lo, hi, b))) <==> AllTaken(p, lo, hi, path)
  {
    assert HasEdge(p, lo, hi, path[|path0| - 1], path[|path0| - 1 + 1]);
    EdgeIsStepIff(p, lo, hi, path0[|path0| - 1], b);
    BlockRuns(p, lo, hi, b);
    Concatenate(p, lo, t, Range(First(p, lo, hi, b), Last(p, lo, hi, b)));
    TakenSnoc(p, lo, hi, path0, b);
  }

  lemma TakenSnoc(p: Program, lo: int, hi: int, path: seq<nat>, b: nat)
    requires Contained(p, lo, hi) && |path| > 0 && b < |Heads(p, lo, hi)|
    requires forall k :: 0 <= k < |path| ==> path[k] < |Heads(p, lo, hi)|
    ensures AllTaken(p, lo, hi, path + [b]) <==> AllTaken(p, lo, hi, path) && Taken(p, lo, hi, path[|path| - 1], b)
  {
    var longer := path + [b];
    if AllTaken(p, lo, hi, longer) {
      forall k | 0 <= k < |path| - 1 ensures Taken(p, lo, hi, path[k], path[k + 1]) {
        assert Taken(p, lo, hi, longer[k], longer[k + 1]);
      }
      assert Taken(p, lo, hi, longer[|path| - 1], longer[|path| - 1 + 1]);
    }
  }

  lemma BlockRuns(p: Program, lo: int, hi: int, b: int)
    requires WellFormed(p, lo, hi) && 0 <= b < |Heads(p, lo, hi)|
    ensures IsExecution(p, First(p, lo, hi, b), Range(First(p, lo, hi, b), Last(p, lo, hi, b)))
  {
    var r := Range(First(p, lo, hi, b), Last(p, lo, hi, b));
    forall k | 0 <= k < |r| - 1 ensures Step(p, r[k], r[k + 1]) {
      LastIff(p, lo, hi, r[k]);
      assert Block(p, lo, hi, r[k]) == b;
      InsideBlock(p, lo, hi, r[k], r[k] + 1);
    }
  }

  lemma Concatenate(p: Program, entry: int, t: seq<int>, u: seq<int>)
    requires |t| > 0 && |u| > 0 && IsExecution(p, u[0], u) && 0 <= t[|t| - 1] < |p|
    ensures IsExecution(p, entry, t + u) <==> IsExecution(p, entry, t) && Step(p, t[|t| - 1], u[0])
  {
    var v := t + u;
    if IsExecution(p, entry, t) && Step(p, t[|t| - 1], u[0]) {
      forall k | 0 <= k < |v| - 1 ensures Step(p, v[k], v[k + 1]) {
        if k >= |t| {
          assert Step(p, u[k - |t|], u[k - |t| + 1]);
        }
      }
    }
    if IsExecution(p, entry, v) {
      forall k | 0 <= k < |t| ensures 0 <= t[k] < |p| {
        assert v[k] == t[k];
      }
      forall k | 0 <= k < |t| - 1 ensures Step(p, t[k], t[k + 1]) {
        assert Step(p, v[k], v[k + 1]);
      }
      assert Step(p, v[|t| - 1], v[|t| - 1 + 1]);
    }
  }

  // ---------------------------------------------------------------- whole programs

  /** Calls stay inside the program, and jumps inside their functions. */
  ghost predicate ContainedProgram(p: Program) {
    && CallsContained(p)
    && forall k :: 0 <= k < |Starts(p)| ==> Contained(p, Starts(p)[k], End(p, k))
  }
}
