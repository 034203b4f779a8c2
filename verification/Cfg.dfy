/** The control-flow graph builder: functions, blocks and edges as lists of nodes that are updated in place. */
module Cfg {
  import opened Bpf
  import opened CfgSpec
  import opened Options

  const NULL_INSN := -0x1_0000  // below every target of a 16-bit displacement
  const ENTRY_BLOCK_INDEX := 0
  const EXIT_BLOCK_INDEX := 1
  const NUM_FIXED_BLOCKS := 2

  datatype EdgeNode = EdgeNode(src: BbNode, dst: BbNode?, flags: int)

  class BbNode {
    var head: int
    var tail: int
    var idx: int
    var ePrevs: seq<EdgeNode>
    var eSuccs: seq<EdgeNode>

    constructor (insn: int)
      ensures head == insn && tail == NULL_INSN && idx == 0 && ePrevs == [] && eSuccs == []
    {
      head, tail, idx, ePrevs, eSuccs := insn, NULL_INSN, 0, [], [];
    }
  }

  class FuncNode {
    var start: int
    var end: int
    var idx: int
    var bbNum: int
    var bbs: seq<BbNode>

    constructor (insn: int, number: int)
      ensures start == insn && end == NULL_INSN && idx == number && bbNum == 0 && bbs == []
    {
      start, end, idx, bbNum, bbs := insn, NULL_INSN, number, 0, [];
    }

    /** The node list consists of blocks that begin with the instructions `s`. */
    ghost predicate HeadsAre(s: seq<int>)
      reads this`bbs, bbs`head, bbs`eSuccs, bbs`ePrevs
    {
      && |bbs| == |s|
      && forall k {:trigger bbs[k]} :: 0 <= k < |s| ==>
          bbs[k].head == s[k] && bbs[k].eSuccs == [] && bbs[k].ePrevs == []
    }

    /** The block that begins with `insn`, or the place in the list where it belongs. */
    method FindBb(insn: int, ghost s: seq<int>) returns (found: bool, i: nat)
      requires Sorted(s) && HeadsAre(s)
      ensures i <= |s| && (found ==> i < |s| && s[i] == insn)
      ensures !found ==> (forall k :: 0 <= k < i ==> s[k] < insn) && (i < |s| ==> insn < s[i])
    {
      i := 0;
      while i < |bbs|
        invariant 0 <= i <= |bbs|
        invariant forall k :: 0 <= k < i ==> s[k] < insn
      {
        if bbs[i].head == insn {
          return true, i;
        } else if bbs[i].head > insn {
          return false, i;
        }
        i := i + 1;
      }
      found := false;
    }

    method AppendBb(insn: int, ghost s: seq<int>) returns (bb: BbNode)
      requires Sorted(s) && HeadsAre(s)
      modifies this`bbs
      ensures HeadsAre(Insert(s, insn))
      ensures bb in bbs && bb.head == insn
      ensures forall k :: 0 <= k < |bbs| ==> bbs[k] in old(bbs) || fresh(bbs[k])
    {
      var found, i := FindBb(insn, s);
      if found {
        assert s[i] in s;
        InsertPresent(s, insn);
        return bbs[i];
      }
      InsertAt(s, insn, i);
      bb := new BbNode(insn);
      bbs := bbs[..i] + [bb] + bbs[i..];
      assert bbs[i] == bb;
    }

    method ScanInsn(p: Program, cur: int, ghost s: seq<int>)
      requires 0 <= cur < |p| && Sorted(s) && HeadsAre(s)
      modifies this`bbs
      ensures HeadsAre(AddLeaders(p, cur, s))
      ensures forall k :: 0 <= k < |bbs| ==> bbs[k] in old(bbs) || fresh(bbs[k])
    {
      if IsJmp(p[cur]) {
        var opcode := Op(p[cur].code);
        if opcode == BPF_EXIT || opcode == BPF_CALL {
          return;
        }
        var _ := AppendBb(Target(p, cur), s);
        if opcode != BPF_JA {
          var _ := AppendBb(cur + 1, Insert(s, Target(p, cur)));
        }
      }
    }

    method PartitionBbHead(p: Program)
      requires 0 <= start <= end < |p|
      modifies this`bbs
      ensures HeadsAre(LeadersTo(p, start, end + 1))
      ensures forall k :: 0 <= k < |bbs| ==> fresh(bbs[k])
    {
      var cur := start;
      bbs := [];
      var _ := AppendBb(cur, []);
      while cur <= end
        invariant start <= cur <= end + 1
        invariant HeadsAre(LeadersTo(p, start, cur))
        invariant forall k :: 0 <= k < |bbs| ==> fresh(bbs[k])
      {
        ScanInsn(p, cur, LeadersTo(p, start, cur));
        cur := cur + 1;
      }
    }

    /** The blocks have their ends and their numbers. */
    ghost predicate TailsAre(s: seq<int>)
      reads this`bbs, this`end, bbs
    {
      && HeadsAre(s)
      && forall k :: 0 <= k < |s| ==> bbs[k].tail == Tail(s, end, k) && bbs[k].idx == k + NUM_FIXED_BLOCKS
    }

    ghost predicate Ends(bb: BbNode, tail: int, idx: int)
      reads bb`tail, bb`idx
    {
      bb.tail == tail && bb.idx == idx
    }

    lemma HeadsTellApart(nodes: seq<BbNode>, s: seq<int>)
      requires Sorted(s) && |nodes| == |s| && forall k {:trigger nodes[k]} :: 0 <= k < |s| ==> nodes[k].head == s[k]
      ensures forall j, k :: 0 <= j < k < |nodes| ==> nodes[j] != nodes[k]
    {
      forall j, k | 0 <= j < k < |nodes| ensures nodes[j] != nodes[k] {
        assert s[j] < s[k];
      }
    }

    method PartitionBbTail(ghost s: seq<int>)
      requires Sorted(s) && |s| > 0 && HeadsAre(s)
      modifies this`bbNum, bbs`tail, bbs`idx
      ensures TailsAre(s)
      ensures bbNum == |s| + NUM_FIXED_BLOCKS
    {
      var bbIdx := NUM_FIXED_BLOCKS;
      var nodes := bbs;
      HeadsTellApart(nodes, s);
      var last := nodes[|nodes| - 1];
      last.tail := end;
      var i := 0;
      while i < |nodes| - 1
        invariant 0 <= i <= |nodes| - 1 && bbIdx == i + NUM_FIXED_BLOCKS
        invariant last.tail == end
        invariant forall k :: 0 <= k < i ==> Ends(nodes[k], Tail(s, end, k), k + NUM_FIXED_BLOCKS)
      {
        var bb := nodes[i];
        assert nodes[i + 1].head == s[i + 1];
        bb.tail := nodes[i + 1].head - 1;
        bb.idx := bbIdx;
        assert Ends(bb, Tail(s, end, i), i + NUM_FIXED_BLOCKS);
        bbIdx := bbIdx + 1;
        i := i + 1;
      }
      last.idx := bbIdx;
      assert Ends(last, Tail(s, end, i), i + NUM_FIXED_BLOCKS);
      assert forall k :: 0 <= k < |s| ==> Ends(nodes[k], Tail(s, end, k), k + NUM_FIXED_BLOCKS);
      bbIdx := bbIdx + 1;
      bbNum := bbIdx;
    }

    /** Entry node, blocks, exit node; the numbers tell the nodes apart. */
    ghost predicate LaidOut(s: seq<int>)
      reads this`bbs, this`end, bbs`head, bbs`tail, bbs`idx
    {
      && |bbs| == |s| + NUM_FIXED_BLOCKS
      && bbs[0].head == NULL_INSN && bbs[0].idx == ENTRY_BLOCK_INDEX
      && bbs[|s| + 1].head == NULL_INSN && bbs[|s| + 1].idx == EXIT_BLOCK_INDEX
      && forall k :: 1 <= k <= |s| ==>
           bbs[k].head == s[k - 1] && bbs[k].tail == Tail(s, end, k - 1) && bbs[k].idx == k - 1 + NUM_FIXED_BLOCKS
    }

    ghost predicate Unlinked()
      reads this, bbs
    {
      forall k :: 0 <= k < |bbs| ==> bbs[k].eSuccs == [] && bbs[k].ePrevs == []
    }

    method AddSpecialBb(ghost s: seq<int>)
      requires Sorted(s) && |s| > 0 && TailsAre(s)
      modifies this`bbs
      ensures LaidOut(s) && Unlinked()
      ensures forall k :: 0 <= k < |bbs| ==> bbs[k] in old(bbs) || fresh(bbs[k])
    {
      var entry := new BbNode(NULL_INSN);
      entry.idx := ENTRY_BLOCK_INDEX;
      bbs := [entry] + bbs;
      var exit := new BbNode(NULL_INSN);
      exit.idx := EXIT_BLOCK_INDEX;
      bbs := bbs + [exit];
      assert forall k :: 1 <= k <= |s| ==> bbs[k] == old(bbs)[k - 1];
    }

    method SearchBbWithHead(insn: int, ghost s: seq<int>) returns (bb: BbNode?)
      requires Sorted(s) && LaidOut(s) && insn != NULL_INSN
      ensures insn in s ==> bb == bbs[IndexOf(s, insn) + 1]
      ensures insn !in s ==> bb == null
    {
      var i := 0;
      while i < |bbs|
        invariant 0 <= i <= |bbs|
        invariant forall k :: 0 <= k < i && k < |s| + 1 ==> bbs[k].head != insn
      {
        if bbs[i].head == insn {
          assert s[i - 1] == insn;
          return bbs[i];
        }
        i := i + 1;
      }
      assert forall k :: 0 <= k < |s| ==> bbs[k + 1].head == s[k];
      return null;
    }

    /** Node `k` has the successor edges `r`. */
    ghost predicate EdgesAre(k: int, r: seq<Succ>)
      requires 0 <= k < |bbs|
      reads this, bbs[k]
    {
      && |bbs[k].eSuccs| == |r|
      && forall m :: 0 <= m < |r| ==>
           && (r[m].to.Some? ==> r[m].to.value < |bbs|)
           && bbs[k].eSuccs[m] == EdgeNode(bbs[k], if r[m].to.Some? then bbs[r[m].to.value] else null, r[m].flags)
    }

    method AddEdgesOf(p: Program, i: int, bb: BbNode, ghost s: seq<int>)
      requires LaidOut(s) && TailsInside(p, s, end)
      requires 1 <= i <= |s| && bb == bbs[i] && bb.eSuccs == []
      modifies bb`eSuccs
      ensures EdgesAre(i, Succs(p, s, end, i - 1))
    {
      var insn := bb.tail;
      if !IsJmp(p[insn]) || Op(p[insn].code) == BPF_EXIT {
        bb.eSuccs := [EdgeNode(bb, bbs[i + 1], EDGE_FLAG_FALLTHROUGH)];
        return;
      }
      var dst := SearchBbWithHead(Target(p, insn), s);
      if Op(p[insn].code) == BPF_JA {
        bb.eSuccs := [EdgeNode(bb, dst, EDGE_FLAG_JUMP)];
      } else {
        bb.eSuccs := [EdgeNode(bb, bbs[i + 1], EDGE_FLAG_FALLTHROUGH)];
        bb.eSuccs := bb.eSuccs + [EdgeNode(bb, dst, EDGE_FLAG_JUMP)];
      }
    }

    ghost predicate EntryExitLinked()
      requires |bbs| >= 3
      reads this, bbs[0], bbs[|bbs| - 1]
    {
      && bbs[0].eSuccs == [EdgeNode(bbs[0], bbs[1], EDGE_FLAG_FALLTHROUGH)]
      && bbs[|bbs| - 1].ePrevs == [EdgeNode(bbs[|bbs| - 2], bbs[|bbs| - 1], EDGE_FLAG_FALLTHROUGH)]
    }

    method AddEntryExitEdges(entry: BbNode, exit: BbNode, ghost s: seq<int>)
      requires LaidOut(s) && |s| > 0 && Unlinked() && entry == bbs[0] && exit == bbs[|bbs| - 1]
      modifies entry`eSuccs, exit`ePrevs
      ensures EntryExitLinked()
      ensures forall k :: 1 <= k < |bbs| ==> bbs[k].eSuccs == []
    {
      entry.eSuccs := entry.eSuccs + [EdgeNode(entry, bbs[1], EDGE_FLAG_FALLTHROUGH)];
      exit.ePrevs := exit.ePrevs + [EdgeNode(bbs[|bbs| - 2], exit, EDGE_FLAG_FALLTHROUGH)];
    }

    /** The first `n` blocks have their successor edges, and the rest of the node list has none yet. */
    ghost predicate LinkedTo(g: seq<seq<Succ>>, n: int)
      requires 0 <= n <= |g| && |bbs| == |g| + NUM_FIXED_BLOCKS
      reads this, bbs
    {
      && (forall k :: 0 <= k < n ==> EdgesAre(k + 1, g[k]))
      && forall k :: n < k < |bbs| ==> bbs[k].eSuccs == []
    }

    method LinkBlock(p: Program, i: int, bb: BbNode, ghost s: seq<int>, ghost g: seq<seq<Succ>>)
      requires LaidOut(s) && TailsInside(p, s, end)
      requires 1 <= i <= |s| && bb == bbs[i]
      requires |g| == |s| && g[i - 1] == Succs(p, s, end, i - 1) && LinkedTo(g, i - 1)
      modifies bb`eSuccs
      ensures LinkedTo(g, i)
    {
      assert forall k :: 0 <= k < |bbs| && k != i ==> bbs[k].idx != bbs[i].idx;
      AddEdgesOf(p, i, bb, s);
      forall k | 0 <= k < i - 1 ensures EdgesAre(k + 1, g[k]) {
        assert old(EdgesAre(k + 1, g[k]));
      }
    }

    method AddBbEdges(p: Program, ghost s: seq<int>, ghost g: seq<seq<Succ>>)
      requires LaidOut(s) && TailsInside(p, s, end) && Unlinked()
      requires |g| == |s| && forall k :: 0 <= k < |s| ==> g[k] == Succs(p, s, end, k)
      modifies bbs`eSuccs, bbs`ePrevs
      ensures EntryExitLinked() && LinkedTo(g, |g|)
    {
      AddEntryExitEdges(bbs[0], bbs[|bbs| - 1], s);
      var i := 1;
      while i < |bbs| - 1
        invariant 1 <= i <= |bbs| - 1
        invariant LaidOut(s) && EntryExitLinked() && LinkedTo(g, i - 1)
      {
        LinkBlock(p, i, bbs[i], s, g);
        i := i + 1;
      }
    }

    /** The node lists represent the graph of `[start, end]`; edges that lead nowhere have a null destination. */
    ghost predicate Built(p: Program)
      reads this, bbs
    {
      && Contained(p, start, end)
      && var s := Heads(p, start, end);
      && LaidOut(s) && EntryExitLinked() && bbNum == |s| + NUM_FIXED_BLOCKS
      && LinkedTo(Graph(p, start, end), |s|)
    }

    /** The edge leads to the block that begins with `x`, or to nowhere if there is none. */
    ghost predicate LeadsToHead(e: EdgeNode, x: int)
      reads this`bbs, bbs`head
    {
      if e.dst == null then forall k :: 1 <= k < |bbs| - 1 ==> bbs[k].head != x
      else exists k :: 1 <= k < |bbs| - 1 && e.dst == bbs[k] && bbs[k].head == x
    }

    /** An edge of node `k`: with flag 1 to the next node, or with flag 2 to where the displacement leads. */
    ghost predicate LinkRight(p: Program, k: int, e: EdgeNode)
      requires 1 <= k < |bbs| - 1 && 0 <= bbs[k].tail < |p|
      reads this`bbs, bbs
    {
      && e.src == bbs[k]
      && ((e.flags == 1 && e.dst == bbs[k + 1])
          || (e.flags == 2 && LeadsToHead(e, bbs[k].tail + p[bbs[k].tail].off + 1)))
    }

    /** There is no edge with flag 1 exactly behind a goto, and one with flag 2 exactly behind a jump or a call. */
    ghost predicate LinksRight(p: Program, k: int)
      requires 1 <= k < |bbs| - 1 && 0 <= bbs[k].tail < |p|
      reads this`bbs, bbs
    {
      var succs, insn := bbs[k].eSuccs, p[bbs[k].tail];
      var jump := insn.code % 8 in {5, 6} && insn.code / 16 != 9;
      && (forall m :: 0 <= m < |succs| ==> LinkRight(p, k, succs[m]))
      && (forall m, n :: 0 <= m < n < |succs| ==> succs[m].flags < succs[n].flags)
      && ((exists m :: 0 <= m < |succs| && succs[m].flags == 1) <==> !(jump && insn.code / 16 == 0))
      && ((exists m :: 0 <= m < |succs| && succs[m].flags == 2) <==> jump)
    }

    /** What is seen in the lists of a built function: numbers, blocks that follow each other, and their edges. */
    ghost predicate ListsRight(p: Program)
      reads this, bbs
    {
      && |bbs| == bbNum && bbNum >= 3 && bbs[0].idx == 0 && bbs[bbNum - 1].idx == 1
      && bbs[1].head == start && bbs[bbNum - 2].tail == end
      && bbs[0].eSuccs == [EdgeNode(bbs[0], bbs[1], 1)]
      && bbs[bbNum - 1].ePrevs == [EdgeNode(bbs[bbNum - 2], bbs[bbNum - 1], 1)]
      && (forall k :: 1 <= k < bbNum - 2 ==> bbs[k].tail == bbs[k + 1].head - 1)
      && forall k :: 1 <= k < bbNum - 1 ==> bbs[k].idx == k + 1 && 0 <= bbs[k].tail < |p| && LinksRight(p, k)
    }

    lemma HeadLed(s: seq<int>, e: EdgeNode, to: Option<nat>, x: int)
      requires LaidOut(s) && CfgSpec.LeadsToHead(s, to, x)
      requires e.dst == if to.Some? then bbs[to.value] else null
      ensures LeadsToHead(e, x)
    {
      if to.None? {
        assert forall n :: 1 <= n < |bbs| - 1 ==> bbs[n].head == s[n - 1] && s[n - 1] in s;
      }
    }

    lemma LinksFrom(p: Program, k: int, s: seq<int>, r: seq<Succ>)
      requires LaidOut(s) && 1 <= k < |bbs| - 1 && 0 <= bbs[k].tail < |p|
      requires EdgesAre(k, r) && EdgesRight(p, s, bbs[k].tail, k - 1, r)
      ensures LinksRight(p, k)
    {
      var succs := bbs[k].eSuccs;
      forall m | 0 <= m < |succs| ensures succs[m].flags == r[m].flags && LinkRight(p, k, succs[m]) {
        if r[m].flags == 2 {
          HeadLed(s, succs[m], r[m].to, bbs[k].tail + p[bbs[k].tail].off + 1);
        }
      }
      SameFlags(succs, r, 1);
      SameFlags(succs, r, 2);
    }

    lemma SameFlags(succs: seq<EdgeNode>, edges: seq<Succ>, flags: int)
      requires |succs| == |edges| && forall m :: 0 <= m < |succs| ==> succs[m].flags == edges[m].flags
      ensures (exists m :: 0 <= m < |succs| && succs[m].flags == flags) <==>
        (exists m :: 0 <= m < |edges| && edges[m].flags == flags)
    {
      if m :| (0 <= m < |succs| && succs[m].flags == flags) {
        assert edges[m].flags == flags;
      }
      if m :| (0 <= m < |edges| && edges[m].flags == flags) {
        assert succs[m].flags == flags;
      }
    }

    lemma BuiltLinks(p: Program, k: int)
      requires Built(p) && 1 <= k < |bbs| - 1
      ensures 0 <= bbs[k].tail < |p| && LinksRight(p, k)
    {
      assert EdgesAre(k - 1 + 1, Graph(p, start, end)[k - 1]);
      assert bbs[k].tail == Last(p, start, end, k - 1);
      EdgesExact(p, start, end, k - 1);
      LinksFrom(p, k, Heads(p, start, end), Edges(p, start, end, k - 1));
    }

    lemma BuiltLists(p: Program)
      requires Built(p)
      ensures ListsRight(p)
    {
      forall k | 1 <= k < |bbs| - 1 ensures 0 <= bbs[k].tail < |p| && LinksRight(p, k) {
        BuiltLinks(p, k);
      }
    }

    method PartitionBb(p: Program)
      requires Contained(p, start, end)
      modifies this`bbs, this`bbNum
      ensures TailsAre(Heads(p, start, end)) && bbNum == |bbs| + NUM_FIXED_BLOCKS
      ensures forall k :: 0 <= k < |bbs| ==> fresh(bbs[k])
    {
      PartitionBbHead(p);
      LeadersAreHeads(p, start, end);
      PartitionBbTail(Heads(p, start, end));
    }

    /** Every edge of every node has a destination. */
    ghost predicate NoNullDst()
      reads this, bbs
    {
      forall k, m :: 0 <= k < |bbs| && 0 <= m < |bbs[k].eSuccs| ==> bbs[k].eSuccs[m].dst != null
    }

    /** What was built has a null destination exactly when a call at the end of a block leads to no block head. */
    lemma NoNullDstIff(p: Program)
      requires Built(p)
      ensures NoNullDst() <==> CallsLand(p, start, end)
    {
      var g := Graph(p, start, end);
      NoneDanglesIff(p, start, end);
      if NoneDangles(p, start, end) {
        forall k, m | 0 <= k < |bbs| && 0 <= m < |bbs[k].eSuccs| ensures bbs[k].eSuccs[m].dst != null {
          if 1 <= k <= |g| {
            assert EdgesAre(k - 1 + 1, g[k - 1]);
            assert !Dangles(p, start, end, k - 1, m);
          }
        }
      } else {
        var k, m :| 0 <= k < |g| && 0 <= m < |Edges(p, start, end, k)| && Dangles(p, start, end, k, m);
        assert EdgesAre(k + 1, g[k]);
        assert bbs[k + 1].eSuccs[m].dst == null;
      }
    }

    method Build(p: Program)
      requires Contained(p, start, end)
      modifies this`bbs, this`bbNum
      ensures Built(p) && forall k :: 0 <= k < |bbs| ==> fresh(bbs[k])
      ensures NoNullDst() <==> CallsLand(p, start, end)
    {
      ghost var s := Heads(p, start, end);
      TailsStayInside(p, start, end);
      PartitionBb(p);
      AddSpecialBb(s);
      AddBbEdges(p, s, Graph(p, start, end));
      NoNullDstIff(p);
    }
  }

  class ControlFlowGraph {
    var funcs: seq<FuncNode>
    var funcNum: int
    ghost var found: seq<FuncNode>  // the functions in the order in which they were found

    constructor ()
      ensures funcs == [] && funcNum == 0 && found == []
    {
      funcs, funcNum, found := [], 0, [];
    }

    /** The functions start at `s`, and each carries its place in the order of discovery as its number. */
    ghost predicate StartsAre(s: seq<int>)
      reads this, funcs`start, funcs`idx
    {
      && |funcs| == |s| == |found| == funcNum
      && forall k :: 0 <= k < |s| ==>
           funcs[k].start == s[k] && 0 <= funcs[k].idx < funcNum && found[funcs[k].idx] == funcs[k]
    }

    /** The function that begins with `insn`, or the place in the list where it belongs. */
    method FindFunc(insn: int, ghost s: seq<int>) returns (found: bool, i: nat)
      requires Sorted(s) && StartsAre(s)
      ensures i <= |s| && (found ==> i < |s| && s[i] == insn)
      ensures !found ==> (forall k :: 0 <= k < i ==> s[k] < insn) && (i < |s| ==> insn < s[i])
    {
      i := 0;
      while i < |funcs|
        invariant 0 <= i <= |funcs|
        invariant forall k :: 0 <= k < i ==> s[k] < insn
      {
        if funcs[i].start == insn {
          return true, i;
        } else if funcs[i].start > insn {
          return false, i;
        }
        i := i + 1;
      }
      found := false;
    }

    method AppendFunc(insn: int, ghost s: seq<int>) returns (func: FuncNode)
      requires Sorted(s) && StartsAre(s)
      modifies this
      ensures StartsAre(Insert(s, insn))
      ensures func in funcs && func.start == insn
      ensures forall k :: 0 <= k < |funcs| ==> funcs[k] in old(funcs) || fresh(funcs[k])
    {
      var found', i := FindFunc(insn, s);
      if found' {
        assert s[i] in s;
        InsertPresent(s, insn);
        return funcs[i];
      }
      InsertAt(s, insn, i);
      func := new FuncNode(insn, funcNum);
      funcs := funcs[..i] + [func] + funcs[i..];
      assert funcs[i] == func;
      found := found + [func];
      funcNum := funcNum + 1;
    }

    method PartitionFuncs(p: Program)
      requires CallsContained(p) && StartsAre([])
      modifies this
      ensures StartsAre(Starts(p))
      ensures forall k :: 0 <= k < |funcs| ==> fresh(funcs[k]) && funcs[k].end == End(p, k)
    {
      var cur := 0;
      var _ := AppendFunc(cur, []);
      while cur < |p|
        invariant 0 <= cur <= |p|
        invariant StartsAre(StartsTo(p, cur))
        invariant forall k :: 0 <= k < |funcs| ==> fresh(funcs[k])
      {
        if IsPseudoCall(p[cur]) {
          var _ := AppendFunc(Target(p, cur), StartsTo(p, cur));
        }
        cur := cur + 1;
      }
      StartsExact(p, 0);
      SetEnds(|p| - 1, Starts(p));
    }

    method SetEnds(hi: int, ghost s: seq<int>)
      requires Sorted(s) && |s| > 0 && StartsAre(s)
      modifies funcs`end
      ensures forall k :: 0 <= k < |funcs| ==> funcs[k].end == Tail(s, hi, k)
    {
      var last := funcs[|funcs| - 1];
      last.end := hi;
      var i := 0;
      while i < |funcs| - 1
        invariant 0 <= i <= |funcs| - 1
        invariant last.end == hi
        invariant forall k :: 0 <= k < i ==> funcs[k].end == Tail(s, hi, k)
      {
        assert forall k :: 0 <= k < |funcs| && k != i ==> funcs[k].start != funcs[i].start;
        funcs[i].end := funcs[i + 1].start - 1;
        i := i + 1;
      }
    }

    method BuildFuncs(p: Program, ghost s: seq<int>)
      requires Sorted(s) && StartsAre(s)
      requires forall k :: 0 <= k < |funcs| ==> Contained(p, funcs[k].start, funcs[k].end)
      modifies funcs`bbs, funcs`bbNum
      ensures forall k :: 0 <= k < |funcs| ==> funcs[k].Built(p)
    {
      var i := 0;
      StartsTellApart(s);
      while i < |funcs|
        invariant 0 <= i <= |funcs|
        invariant forall k :: 0 <= k < i ==> funcs[k].Built(p)
      {
        funcs[i].Build(p);
        i := i + 1;
      }
    }

    lemma StartsTellApart(s: seq<int>)
      requires Sorted(s) && StartsAre(s)
      ensures forall j, k :: 0 <= j < k < |funcs| ==> funcs[j] != funcs[k]
    {
    }

    /** Every function of the program is there, in order, with its graph. */
    method Build(p: Program)
      requires ContainedProgram(p) && StartsAre([])
      modifies this
      ensures StartsAre(Starts(p))
      ensures forall k :: 0 <= k < |funcs| ==> funcs[k].end == End(p, k) && funcs[k].Built(p)
      ensures forall k :: 0 <= k < |funcs| ==> funcs[k].ListsRight(p)
    {
      PartitionFuncs(p);
      BuildFuncs(p, Starts(p));
      forall k | 0 <= k < |funcs| ensures funcs[k].ListsRight(p) {
        funcs[k].BuiltLists(p);
      }
    }
  }
}
